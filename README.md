# VMware module wizard: kernel enumeration and plan selection

A Dafny model of the decision logic in the VMware module installation wizard
(`scripts/vmware_wizard.py`). The wizard lists the kernels installed under
`/lib/modules`, keeps the ones the modules can be built for (a supported 6.16, 6.17 or
6.18 series with a `build` headers directory), lets the operator pick one or all of
them, offers a compilation mode (optimized or vanilla) based on the hardware report,
and exports a configuration record for the build script.

Files:

- `wrappers.dfy`: module `Wrappers`, the `Option` type used for Python's raise-or-value results.
- `pytext.dfy`: module `PyText`, the Python string operations the parser relies on:
  `str.split`, `int()`, `str()` of an integer, and code-point string ordering.
- `kernels.dfy`: module `Kernels`, the `KernelInfo` record, parsing and classifying a
  directory entry, `sorted()` over the listing, and the enumeration loop
  `detect_installed_kernels`. The list the loop builds is defined for any per-entry
  classification (`ClassifyAll`), so its order, soundness and completeness are proved once;
  `ClassifierFor` supplies the classification the loop actually applies.
- `wizard.dfy`: module `Wizard`, the candidate filter, kernel selection, default kernel,
  mode recommendation and choice, the IOMMU flag, the exported record, and the class
  `VMwareWizard` whose `Run` updates the four wizard fields step by step.

The host is a parameter. It gives the modules directory (missing, or its entries with
`is_dir` and "has a `build` directory"), the running release (`os.uname().release`) and
the hardware report. The operator's answers to the prompts are parameters too.

## Model

| member | source | states |
|---|---|---|
| `PyText.Split` | scripts/vmware_wizard.py:64 | `split` always yields at least one part, so indexing part 0 never fails |
| `PyText.SplitPartsSepFree` | scripts/vmware_wizard.py:64 | no part of a split contains the separator |
| `PyText.JoinSplit` | scripts/vmware_wizard.py:64 | joining the parts of a split with the separator gives back the original string |
| `PyText.SplitJoin` | scripts/vmware_wizard.py:64 | splitting a join of separator-free parts gives back those parts, so the parts are exactly the maximal separator-free runs |
| `PyText.SplitHeadIsPrefix` | scripts/vmware_wizard.py:64 | `split('-')[0]` is the prefix before the first `-`, or the whole name when there is no `-` |
| `PyText.ParseInt` | scripts/vmware_wizard.py:65-67 | `int()` succeeds exactly on an optional sign followed by digits; text without `-` parses to a non-negative value |
| `PyText.IntToString` | scripts/vmware_wizard.py:68 | `str(n)`: a minus sign for a negative number, then the decimal digits of the magnitude without leading zeros (`NatToString`) |
| `PyText.ParseIntToString` | scripts/vmware_wizard.py:65-68 | `int(str(n)) == n` for every integer |
| `PyText.LexLe` | scripts/vmware_wizard.py:56 | the string comparison `sorted` applies to the entry names: code point by code point, a proper prefix first |
| `PyText.LexLeTotal` | scripts/vmware_wizard.py:56 | any two names are comparable in the string order `sorted` uses |
| `PyText.LexLeTransitive` | scripts/vmware_wizard.py:56 | the string order is transitive |
| `Kernels.ParseVersion` | scripts/vmware_wizard.py:63-70 | `(major, minor, patch)` from `name.split('-')[0].split('.')`: `int()` of the first component, of the second and third when present and 0 otherwise; `None` when any of those `int()` calls raises `ValueError` |
| `Kernels.ParseVersionSpec` | scripts/vmware_wizard.py:63-70 | a name yields a version exactly when the first component, and the second and third where present, parse as integers; all three are non-negative; a missing minor or patch is 0 |
| `Kernels.ExtraComponentsIgnored` | scripts/vmware_wizard.py:64-67 | components after the third never change the parsed version |
| `Kernels.ParseExampleSuffix` | scripts/vmware_wizard.py:64-67 | `6.18-rc1` gives (6, 18, 0) |
| `Kernels.ParseExampleFourParts` | scripts/vmware_wizard.py:64-67 | `6.17.2.1` gives (6, 17, 2) |
| `Kernels.ParseExampleDistribution` | scripts/vmware_wizard.py:64-67 | `6.17.2-arch1` gives (6, 17, 2) |
| `Kernels.ParseExampleRejected` | scripts/vmware_wizard.py:63-70 | `linux` is rejected (the `ValueError` path) |
| `Kernels.VersionString` | scripts/vmware_wizard.py:68 | the f-string `"{major}.{minor}"`: `str(major)`, a dot, `str(minor)` |
| `Kernels.Supported` | scripts/vmware_wizard.py:73 | a series is supported exactly when major is 6 and minor is 16, 17 or 18 |
| `Kernels.HeadersPath` | scripts/vmware_wizard.py:76 | `str(kernel_dir / "build")`, stored at line 88: `/lib/modules/<name>/build` |
| `Kernels.Classify` | scripts/vmware_wizard.py:57-91 | only a directory yields a record, and the record's `full_version` is the directory name |
| `Kernels.ClassifySpec` | scripts/vmware_wizard.py:57-91 | an entry yields a record exactly when it is a directory with an accepted name; `full_version` is the name, `version` is exactly the canonical decimal text `"{major}.{minor}"` of two non-negative numbers, `supported` holds iff major is 6 and minor is 16 to 18, `is_current` iff the name is the running release, `headers_installed` is the `build` flag |
| `Kernels.VersionStringParses` | scripts/vmware_wizard.py:68 | the `"{major}.{minor}"` text, parsed as a name, gives back (major, minor, 0) |
| `Kernels.ClassifiedVersionParses` | scripts/vmware_wizard.py:68-79 | every record's `version` re-parses to its own major and minor; `supported` and `headers_path` follow from its other fields |
| `Kernels.SortByName` | scripts/vmware_wizard.py:56 | the sorted listing is a permutation of the entries |
| `Kernels.SortByNameSorted` | scripts/vmware_wizard.py:56 | the sorted listing is in ascending name order and has as many directories as the entries |
| `Kernels.SortByNameDistinct` | scripts/vmware_wizard.py:56 | sorting a listing whose names are distinct keeps them distinct |
| `Kernels.SortedOrderUnique` | scripts/vmware_wizard.py:56 | with distinct names there is only one name-sorted arrangement of a listing |
| `Kernels.SortByNameMatchesSorted` | scripts/vmware_wizard.py:56 | any name-sorted permutation of a listing with distinct names is what `SortByName` returns, so the model's order is `sorted()`'s |
| `Kernels.ClassifyAll` | scripts/vmware_wizard.py:56-93 | the loop's list never outnumbers the entries; one record per accepted entry is `ClassifyAllSound`, `ClassifyAllComplete` and `ClassifyAllDistinct` together |
| `Kernels.InstalledKernels` | scripts/vmware_wizard.py:46-93 | the list `detect_installed_kernels` returns: empty when `/lib/modules` is missing, otherwise the records of the name-sorted listing for the running release |
| `Kernels.DetectInstalledKernels` | scripts/vmware_wizard.py:46-93 | the loop returns exactly the records of the accepted entries in sorted order, and nothing when the modules directory is missing |
| `Kernels.ClassifyAllSound` | scripts/vmware_wizard.py:81-91 | for any classification, every record in the list comes from an entry the classification accepts |
| `Kernels.ClassifyAllComplete` | scripts/vmware_wizard.py:56-91 | for any classification, every accepted entry contributes its record |
| `Kernels.ClassifyAllDistinct` | scripts/vmware_wizard.py:56-91 | when each record is named after its entry and the entry names are distinct, no two records share a `full_version`, so no accepted entry is recorded twice |
| `Kernels.ClassifyAllDirCount` | scripts/vmware_wizard.py:57-58 | when only directories are accepted, there are no more records than directory entries |
| `Kernels.ClassifyAllSorted` | scripts/vmware_wizard.py:56-93 | when each record is named after its entry, the records of a name-sorted listing are in ascending `full_version` order |
| `Kernels.InstalledKernelsBound` | scripts/vmware_wizard.py:52-58 | a missing modules directory yields no kernels; a listing yields no more kernels than it has directories |
| `Kernels.InstalledKernelsSorted` | scripts/vmware_wizard.py:56-93 | the detected kernels are in ascending order of their directory names |
| `Kernels.InstalledKernelsSound` | scripts/vmware_wizard.py:56-91 | every detected kernel is the record of a directory of the listing that carries its name |
| `Kernels.InstalledKernelsComplete` | scripts/vmware_wizard.py:56-91 | every directory with an accepted name yields its record |
| `Kernels.InstalledKernelsDistinct` | scripts/vmware_wizard.py:56-91 | for a directory listing (whose entry names are distinct) no two detected kernels share a `full_version` |
| `Wizard.ModeName` | scripts/vmware_wizard.py:306-309 | the exported mode name is `"optimized"` exactly for the optimized mode, and `"vanilla"` otherwise |
| `Wizard.SupportedWithHeaders` | scripts/vmware_wizard.py:218 | candidates are buildable detected kernels; each buildable kernel keeps its multiplicity and every other kernel is dropped |
| `Wizard.SupportedWithHeadersOrdered` | scripts/vmware_wizard.py:218 | candidates keep the detection order (they form a subsequence) |
| `Wizard.SelectKernels` | scripts/vmware_wizard.py:249-252 | "all" selects the whole candidate list; any other answer selects a one-element list holding that kernel |
| `Wizard.SelectionIsBuildable` | scripts/vmware_wizard.py:241-252 | for any offered answer the selection is non-empty, no longer than the candidates, and holds only buildable detected kernels |
| `Wizard.LastCurrent` | scripts/vmware_wizard.py:232-238 | the prompt's default is absent iff no candidate is current; when present it is a current candidate |
| `Wizard.DefaultKernel` | scripts/vmware_wizard.py:229-238 | the labelling loop leaves as default the last current candidate |
| `Wizard.DefaultIsRunningKernel` | scripts/vmware_wizard.py:79 | a default is offered exactly when the running release is among the candidates, and then it is that release |
| `Wizard.OptimizationLookup` | scripts/vmware_wizard.py:271-272 | the nested `.get` fails exactly when the report or its `optimization` entry is not an object, gives the default when a key is missing, and otherwise gives the value stored under the key |
| `Wizard.RecommendedMode` | scripts/vmware_wizard.py:271 | `hw.get('optimization', {}).get('recommended_mode', 'optimized')` |
| `Wizard.OptimizationScore` | scripts/vmware_wizard.py:272 | `hw.get('optimization', {}).get('optimization_score', 50)` |
| `Wizard.ScoreFailsWithRecommendation` | scripts/vmware_wizard.py:271-272 | the score lookup fails exactly when the recommendation lookup fails |
| `Wizard.EmptyReportRecommendsOptimized` | scripts/vmware_wizard.py:271-272 | an empty report recommends `"optimized"` with score 50 |
| `Wizard.DefaultMode` | scripts/vmware_wizard.py:311 | the default mode is optimized exactly when the recommendation is `"optimized"` |
| `Wizard.ChosenMode` | scripts/vmware_wizard.py:311-317 | the mode in effect is the operator's answer, or the default when they accept it |
| `Wizard.AutoConfigureIommu` | scripts/vmware_wizard.py:352 | IOMMU auto-configuration is on exactly for the optimized mode |
| `Wizard.ExportKernels` | scripts/vmware_wizard.py:340-348 | one exported record per selected kernel, in order, copying the six fields unchanged |
| `Wizard.ExportRoundTrip` | scripts/vmware_wizard.py:73-91 | from an exported record and the headers flag, the full `KernelInfo` is recovered |
| `Wizard.MakeConfig` | scripts/vmware_wizard.py:340-353 | the exported configuration holds the six-field export of each selected kernel in order (`ExportKernels`), the mode's name (`"optimized"` or `"vanilla"`, `ModeName`), `auto_configure_iommu` iff that name is `"optimized"`, and the hardware report unchanged |
| `Wizard.VMwareWizard.constructor` | scripts/vmware_wizard.py:39-44 | the fields start empty, with mode optimized and an empty hardware report |
| `Wizard.VMwareWizard.KernelStep` | scripts/vmware_wizard.py:209-252 | step 1 stores the detected kernels, fails exactly when no buildable kernel is found, and otherwise stores the selection; the mode and hardware fields are untouched |
| `Wizard.VMwareWizard.ModeStep` | scripts/vmware_wizard.py:258-317 | steps 2 and 3 store the new report (or keep the old one when there is none), fail exactly when the recommendation cannot be read, and otherwise store the chosen mode; the kernel fields are untouched |
| `Wizard.VMwareWizard.Run` | scripts/vmware_wizard.py:182-364 | the new value of each field after every exit of the flow, and that status 0 comes with the exported configuration of the final fields |

## Left out

- Hardware detection (`run_hardware_detection`) runs a subprocess and reads a JSON file. Its result is the `hardware` parameter of `Host`. `None` stands for "no report file", which leaves the field unchanged. A missing script or a failed run is the empty object.
- Memory check (`check_and_fix_memory_saturation`): sudo subprocess glue with no effect on the plan.
- The JSON file writes, the `timestamp` field (`time.time()`) and the unused duplicate `export_configuration` are left out. `MakeConfig` is the record without its timestamp.
- All terminal UI is left out: banners, step headers, tables, panels, prompt labels and emoji markers. The root check in `main` is left out too. The operator's answers are parameters. `vmware_ui` is not part of this model, so what the kernel prompt does with a missing default is unknown. The kernel answer is therefore always explicit. The mode answer may accept the default, which always exists.
- `KeyboardInterrupt` is left out. The generic exception handler is modelled only for the `AttributeError`s of the lookups at lines 271-272 and of `.upper()` at line 302, each giving status 1. Other exceptions are left out: an existing `/lib/modules` that is not a directory, permission errors, and failed writes.
- `PyText.ParseInt`: Python's `int()` also accepts surrounding whitespace, `_` between digits and non-ASCII decimal digits. Names using those are rejected by the model but accepted by Python.
- The `is_dir()` and `exists()` results are inputs: symbolic links and races with the filesystem are not modelled. File names are Unicode strings; undecodable bytes are not modelled.
- JSON numbers in the hardware report are integers only; floating point is not modelled.
- The IndexError branch at line 69 is not modelled: `split` always returns at least one part (`PyText.Split` proves this).
- Patch resolution, compiler-flag policy, backups and build orchestration are not done in `scripts/vmware_wizard.py` and are not modelled.
