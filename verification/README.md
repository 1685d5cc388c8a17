# severn's requirement core, in Dafny

severn reads pip requirements files and checks versions against the
constraints they list. This project models that core as pure functions and
proves properties of them. It has four parts:

- **The version constraint** (`severn/api/constraint.py`). `CONSTRAINT_PATTERN`
  is modelled as a deterministic scanner that reproduces `re.match`'s
  greedy, first-alternative choices (`ConstraintScan`). `from_string`
  builds a `Constraint` whose ten-field key uses `MAX_VERSION = 0xFFFFFFF`
  for absent tags. The comparator dispatch, `~=` (`_fuzzy_callback`) and
  `likes_version` are modelled as well (`Constraints`). The model gives a
  printer whose output `from_string` reads back (`ConstraintRender`), and
  proves that a `+local` label changes neither the match nor the result
  (`LocalVersion`). It
  proves order properties (`ConstraintProperties`) and the verdicts that the
  constraint tests expect (`ConstraintExamples`). Python's tuple order is
  `Lex`.
- **The dependency** (`severn/api/dependency.py`): the constructor that
  parses constraint texts, `__str__`, and `likes_version` as an `all(...)`
  over the constraints (`Dependencies`).
- **The requirements-file parser** (`severn/api/parsers/reqfile.py`).
  `REQUIREMENT_PATTERN` and `ENV_MARKER_PATTERN` are modelled as scanners
  (`RequirementScan`). The per-line classification, the `-r` include, the
  skipped lines and the constructor call are in `ReqFile`. The file
  system is a map from paths to texts. A fuel bound stands in for
  unbounded include nesting.
- **The older module** (`severn/api/requirements.py`). Its constraint reads
  an absent or `0` field as `float("inf")` through `x or MAX_VERSION`
  (`LegacyConstraints`). Its parser keeps a `-r` line's own dependency
  (`LegacyRequirements`). `LegacyAgreement` proves where the two
  constraints agree and gives the inputs on which they differ.

Python exceptions are `Err` values of `Results.Error`:

| Error | Python exception |
|---|---|
| `Malformed` | the pattern does not match |
| `UnknownLabel` | `c` or `pre` reaches the constructor as an unknown keyword |
| `UnknownComparator` | the comparator mapping's `KeyError` |
| `TupleIndex` | the legacy `~=` index error |
| `NotAString` | `from_string` given a `Constraint` |
| `FileNotFound` | a missing file |
| `IncludeTooDeep` | the nesting runs out of fuel |

Where the repository's tests and its code disagree, the model follows the
code:

- `Dependency.__str__` returns `"Undefined"`. `tests/api/test_dependency.py:48`
  expects `"undefined"`.
- The dependency's `env_markers` default to `None`. The test expects `{}`.
- The current key uses the sentinel `0xFFFFFFF`. `tests/api/test_constraint.py:51`
  expects `inf`.
- A `package_url` line without a name is warned about generically and
  skipped. A line with a name and a `package_url` gives a dependency; the
  tests expect "not supported" warnings for both.
- `from_string`'s error message is not modelled. The test at
  `tests/api/test_constraint.py:70` expects a different text from the code.

The `0xFFFFFFF` sentinel sorts like any other number. So a post-release key
(`1.0.post1`) sorts below the untagged release (`1.0`), since
`TaggedBelowUntagged` holds for `post2` and for `post1` (`1.0-1`) too. A tag numbered `0xFFFFFFF` gives
the key of the release without that tag (`SentinelPrerelease`). Both follow
from the code as written and are stated as they are.

## Model

| member | source | states |
|---|---|---|
| ConstraintScan.Scan | severn/api/constraint.py:61-93 | the pattern matches exactly when one or two comparator characters are followed by a digit; the groups are well formed; the comparator is a prefix of the text and takes a second comparator character when there is one |
| ConstraintScan.FirstLabel | severn/api/constraint.py:67-72 | the chosen alternative is the first in pattern order that the text starts with, and none before it matches |
| ConstraintScan.Shadowed | severn/api/constraint.py:69 | an alternative that extends an earlier one (`alpha` after `a`, `beta` after `b`, `preview` after `pre`) is never chosen |
| ConstraintScan.PreRelease | severn/api/constraint.py:67-72 | a captured pre-release label is one of `a`, `b`, `c`, `rc`, `pre`, with an optional digit run |
| ConstraintScan.PostRelease | severn/api/constraint.py:73-82 | `-N` and the labelled post number are never both captured |
| ConstraintScan.Release | severn/api/constraint.py:66 | the release has at least one segment, the first all digits, and always consumes input |
| ConstraintScan.Version | severn/api/constraint.py:64-89 | the groups after the comparator are well formed, keep the comparator, and consume input |
| Constraints.OpOf | severn/api/constraint.py:113-123 | the comparator mapping: an operator whose text is the comparator, or none when no operator has that text |
| Constraints.FromMatch | severn/api/constraint.py:140-178 | succeeds exactly when the label is `a`, `b` or `rc` (or absent) and the comparator is in the mapping; the result is canonical with the written number of release segments; a `*` forces `~=`; `==` gives `==` or `~=`; the values themselves are stated by `WildcardAsZeros`, `ExtraSegment`, `BareLabel` and the round trip `RenderRoundTrip` |
| Constraints.FromString | severn/api/constraint.py:140-178 | a text the pattern rejects is a `ValueError`; success exactly when it matches with a known label; the result is canonical, a wildcard forces `~=` |
| Constraints.LikesVersion | severn/api/constraint.py:191-195 | an unparsable candidate raises its parse error; a parsable one always gets a verdict |
| ConstraintRender.RenderRoundTrip | severn/api/constraint.py:140-178 | every canonical constraint is read back unchanged from its rendering, so `from_string` loses nothing a canonical constraint holds |
| ConstraintRender.CanonicalIsImage | severn/api/constraint.py:140-178 | the constraints `from_string` returns are exactly the canonical ones |
| ConstraintRender.ComparatorOnlyOp | severn/api/constraint.py:166-178 | for a version without a wildcard, the comparator chooses only the operation: every other field is the one `==` in front of the same version gives |
| LocalVersion.ScanStops | severn/api/constraint.py:61-91 | on text matched by the pattern, a tail starting with `+` changes no group and is left over after the match |
| LocalVersion.LocalIgnored | severn/api/constraint.py:90-142 | a local label `+…` never changes whether the text matches nor the constraint `from_string` builds |
| LocalVersion.LegacyLocalIgnored | severn/api/requirements.py:106-161 | the same for the legacy `from_string` |
| LocalVersion.RenderedLocal | severn/api/constraint.py:90-142 | every canonical constraint, rendered with any local label, is read back unchanged |
| LocalVersion.LikesLocal | severn/api/constraint.py:191-195 | a candidate's local label never changes the verdict |
| ConstraintProperties.Complement | severn/api/constraint.py:113-123 | `==`/`!=`, `>`/`<=` and `<`/`>=` split every candidate key between them |
| ConstraintProperties.LikesComplement | severn/api/constraint.py:191-195 | for any version text, complementary comparators both raise or give opposite verdicts |
| ConstraintProperties.OwnKey | severn/api/constraint.py:113-123 | a constraint accepts its own key exactly for `==`, `>=`, `<=` and `~=` |
| ConstraintProperties.LikesItself | severn/api/constraint.py:191-195 | a parsable version is liked by its own constraint under each comparator that accepts its own key, and rejected under the others |
| ConstraintProperties.CompatibleRelease | severn/api/constraint.py:180-189 | with one to four release numbers written, `~=` pins the epoch and the written numbers but the last, and requires the candidate's key not to be below |
| ConstraintProperties.PrereleaseBelowFinal | severn/api/constraint.py:105-107 | a key with a pre-release tag sorts below the same release without one |
| ConstraintProperties.StageOrder | severn/api/constraint.py:125-138 | alpha keys sort below beta keys, and beta keys below rc keys, for any two numbers below the sentinel |
| ConstraintProperties.TaggedBelowUntagged | severn/api/constraint.py:108-110 | a dev number, a labelled post number or a `-N` post number (the `post_n1` group of the pattern, line 74) below the sentinel makes the key sort below the untagged release |
| ConstraintProperties.WildcardAsZeros | severn/api/constraint.py:148-150 | a match with a `*` in its release builds the same constraint, or fails the same way, as the same match with comparator `~=` and every `*` written `0`, which is a well-formed match without a wildcard |
| ConstraintProperties.ExtraSegment | severn/api/constraint.py:152-154 | with three or more release numbers written, one more changes only the specificity: the key and whether the call succeeds stay the same |
| ConstraintProperties.BareLabel | severn/api/constraint.py:156-165 | a pre-release label written without a number builds the same constraint as that label numbered `0`, or fails with the same unknown-label error for `c` and `pre` |
| ConstraintProperties.SentinelPrerelease | severn/api/constraint.py:94 | a tag numbered `MAX_VERSION` parses to the same constraint as no tag |
| ConstraintExamples.ParseGe | tests/api/test_constraint.py:58-59 | `>=2.8.2` parses to the key `(0, 2, 8, 2)` followed by six sentinels |
| ConstraintExamples.ParseWildcard | tests/api/test_constraint.py:74-79 | `==2.8.*` parses as `~=` with major 2, minor 8 and patch 0 |
| ConstraintExamples.ParsePrerelease | tests/api/test_constraint.py:62-66 | `>=2.8.2a5.post3` parses with alpha 5 and post 3 |
| ConstraintExamples.GreaterRejectsItself | tests/api/test_constraint.py:112 | the text `>2.8.2` parses to that bound, which rejects `2.8.2` |
| ConstraintExamples.GreaterLikesNextPatch | tests/api/test_constraint.py:114 | the text `>2.8.2` parses to that bound, which likes `2.8.3` |
| ConstraintExamples.GreaterRejectsEarlierRc | tests/api/test_constraint.py:119 | the text `>2.8.2` parses to that bound, which rejects `2.8.1rc9` |
| ConstraintExamples.GreaterLikesLaterDev | tests/api/test_constraint.py:121 | the text `>2.8.2` parses to that bound, which likes `2.8.3.dev0` |
| ConstraintExamples.LessLikesOwnDev | tests/api/test_constraint.py:148 | the text `<2.8.2` parses to that bound, which likes `2.8.2.dev0` |
| ConstraintExamples.CompatibleRejectsEarlierPatch | tests/api/test_constraint.py:169 | the text `~=2.8.2` parses to that bound, which rejects `2.8.1` |
| ConstraintExamples.CompatibleLikesNextPatch | tests/api/test_constraint.py:170 | the text `~=2.8.2` parses to that bound, which likes `2.8.3` |
| ConstraintExamples.CompatibleRejectsNextMinor | tests/api/test_constraint.py:172 | the text `~=2.8.2` parses to that bound, which rejects `2.9.2` |
| ConstraintExamples.CompatibleRejectsOwnDev | tests/api/test_constraint.py:176 | the text `~=2.8.2` parses to that bound, which rejects `2.8.2.dev0` |
| ConstraintExamples.AlphaBoundLikesBeta | tests/api/test_constraint.py:183 | the text `>=2.8.2a1` parses to that bound, which likes `2.8.2b1` |
| ConstraintExamples.BetaBoundRejectsAlpha | tests/api/test_constraint.py:189 | the text `>=2.8.2b1` parses to that bound, which rejects `2.8.2a1` |
| ConstraintExamples.RcBoundRejectsBeta | tests/api/test_constraint.py:197 | the text `>=2.8.2rc1` parses to that bound, which rejects `2.8.2b1` |
| Lex.LessIsFirstDifference | severn/api/constraint.py:117-120 | tuple comparison on keys of equal length is decided by the first differing field |
| Lex.Trichotomy | severn/api/constraint.py:117-120 | any two keys are ordered one way, equal, or ordered the other way |
| Lex.Transitive | severn/api/constraint.py:117-120 | the key order is transitive |
| Lex.LessEqIffNotGreater | severn/api/constraint.py:118-120 | `<=` on keys is the negation of `>` in the other direction |
| Results.Collect | severn/api/dependency.py:48-50 | a list comprehension over raising calls: a list exactly when every call succeeds, element by element; otherwise one of the calls' errors |
| Results.AllOf | severn/api/dependency.py:59-60 | `all(...)` over raising calls: true exactly when every call gives true; a false or an error comes from some call |
| Dependencies.ParseAll | severn/api/dependency.py:48-50 | every constraint argument is parsed in order; the list exists exactly when every parse succeeds and holds their results |
| Dependencies.New | severn/api/dependency.py:37-54 | no constraints gives an empty list; otherwise success exactly when every argument parses, keeping their results; the other attributes are stored unchanged; a `Constraint` object as an argument is a `TypeError` |
| Dependencies.NewRejectsParsed | severn/api/dependency.py:48-50 | a non-empty list of `Constraint` objects is always rejected |
| Dependencies.Str | severn/api/dependency.py:56-57 | the name when it is non-empty, `Undefined` otherwise |
| Dependencies.LikesVersion | severn/api/dependency.py:59-60 | true with no constraints; true exactly when every constraint likes the version |
| Dependencies.LikesUnparsable | severn/api/dependency.py:59-60 | an unparsable version raises its parse error as soon as there is a constraint |
| Dependencies.LikesParsable | severn/api/dependency.py:59-60 | for a parsable version the verdict is whether every constraint accepts its key |
| Dependencies.LikesVersionParsesOnce | severn/api/dependency.py:59-60 | the short-circuiting `all` equals a version of it that evaluates every constraint |
| Dependencies.LikesNarrowing | severn/api/dependency.py:59-60 | adding a constraint can only turn a liked version into a rejected one |
| RequirementScan.Flagged | severn/api/parsers/reqfile.py:47-49 | a `-r`, `-c` or `-e` group is captured exactly when the line starts with the flag, and then runs to the end of the line |
| RequirementScan.Wheel | severn/api/parsers/reqfile.py:50 | the `./` group is captured exactly when the second character is `/` and the first is not a newline |
| RequirementScan.DistUrl | severn/api/parsers/reqfile.py:51 | the URL group is captured exactly when the text starts with `http://` or `https://` |
| RequirementScan.Package | severn/api/parsers/reqfile.py:52 | the name is captured exactly when the first character is allowed in a name, and is a non-empty prefix |
| RequirementScan.Extras | severn/api/parsers/reqfile.py:53 | the extras run to the last `]` of the line; a `[` without a closing `]` captures nothing |
| RequirementScan.Version | severn/api/parsers/reqfile.py:55 | the version text runs up to the first `;` |
| RequirementScan.Scan | severn/api/parsers/reqfile.py:45-59 | the `-r` group is captured exactly when the line starts with `-r` and then holds the rest of the line; the groups compose |
| RequirementScan.ScanPackageLeads | severn/api/parsers/reqfile.py:45-59 | a captured name is a prefix of the line, and then no editable group was captured |
| RequirementScan.ScanInclude | severn/api/parsers/reqfile.py:47 | `-rPATH` captures `PATH` as the file and nothing else |
| RequirementScan.ScanEditable | severn/api/parsers/reqfile.py:49 | `-ePATH` captures `PATH` as the editable location and nothing else |
| RequirementScan.ScanLine | severn/api/parsers/reqfile.py:45-59 | a requirement written as name, extras, version and markers is read back into exactly those groups |
| RequirementScan.Location | severn/api/parsers/reqfile.py:131-136 | the editable location if filled, else the wheel if filled, else the URL if filled, else the package URL group as it is, so empty exactly when all four are |
| RequirementScan.MarkerMatch | severn/api/parsers/reqfile.py:44 | a marker matches exactly when it starts with a non-comparator character; the key is that run and key plus value is the marker |
| RequirementScan.MarkerKey | severn/api/parsers/reqfile.py:116-122 | a stored key is non-empty and holds no quote |
| RequirementScan.AddMarkers | severn/api/parsers/reqfile.py:114-122 | folding markers into the map keeps every key already there and only adds non-empty, quote-free keys |
| RequirementScan.MarkersRoundTrip | severn/api/parsers/reqfile.py:114-122 | markers written as `key` + `value` joined by commas are read back as the same pairs, a later key overriding an earlier one |
| RequirementScan.MarkerWithoutKey | severn/api/parsers/reqfile.py:119-120 | a marker that starts with a comparator character is dropped |
| ReqFile.Classify | severn/api/parsers/reqfile.py:81-102 | a line is skipped exactly when it is blank or a comment after stripping; an include always names a non-empty file |
| ReqFile.FromGroups | severn/api/parsers/reqfile.py:96-137 | an include exactly when `req_file` is non-empty, naming it; a requirement only with a non-empty name, which is the captured package |
| ReqFile.SpacesIgnored | severn/api/parsers/reqfile.py:81-89 | removing every space from a line before reading it changes nothing: stripping and the blank or comment test see the same first character, and the spaces the parser removes are already gone |
| ReqFile.DocoptLine | tests/api/parsers/test_reqfile.py:79-84 | the line `docopt == 0.6.1`, spaces included, is read as the requirement `docopt` with the single constraint `==0.6.1` and no markers, extras or location |
| Text.StripRemoveSpaces | severn/api/parsers/reqfile.py:81-89 | stripping a line and removing its spaces can be done in either order |
| Text.SplitAbsent | severn/api/parsers/reqfile.py:124 | a text without the separator splits into itself alone |
| ReqFile.ClassifyRequirement | severn/api/parsers/reqfile.py:89-137 | a requirement the parser builds is never editable and its name is non-empty and holds no space |
| ReqFile.ClassifyReadable | severn/api/parsers/reqfile.py:114-137 | a line written as name, extras, version and markers becomes the entry with those parts, the version split at commas |
| ReqFile.ReadableUntouched | severn/api/parsers/reqfile.py:81-89 | such a line is not blank, not a comment, and loses nothing to stripping or space removal |
| ReqFile.Build | severn/api/parsers/reqfile.py:124-138 | the dependency exists exactly when every constraint text parses and then holds their results; the name and markers are the entry's |
| ReqFile.AsWrittenRejectsConstraints | severn/api/parsers/reqfile.py:128 | with the constraints parsed before the constructor call, any line with a constraint raises, and a line that would have parsed raises `TypeError` |
| ReqFile.AsWrittenWithoutConstraints | severn/api/parsers/reqfile.py:124-128 | without constraints the call as written and the corrected one agree and succeed |
| ReqFile.Resolve | severn/api/parsers/reqfile.py:98-100 | a nested path that exists, or is absolute, is used as written; otherwise it is taken relative to the including file's directory, `/` for a file at the root, and as written when that directory is the current one |
| ReqFile.Parent | severn/api/parsers/reqfile.py:100 | `Path(p).parent`: empty exactly when there is no `/`; otherwise the text before the last `/`, or `/` when that is the first character |
| ReqFile.ParentOfJoin | severn/api/parsers/reqfile.py:100 | the parent of a directory joined with a name without `/` is that directory, the root and the current directory included |
| ReqFile.ResolveSibling | severn/api/parsers/reqfile.py:98-100 | a nested name without `/` that does not exist as written resolves into the including file's directory |
| ReqFile.StepOf | severn/api/parsers/reqfile.py:83-138 | a line nests exactly when it is an include and emits exactly when it is a requirement, emitting the built dependency |
| ReqFile.ParseLinesAppend | severn/api/parsers/reqfile.py:76-150 | the parse of two blocks of lines is the first block's dependencies followed by the second's, the first error winning |
| ReqFile.IncludeSplices | severn/api/parsers/reqfile.py:96-102 | an include line contributes exactly the nested file's dependencies, and no dependency of its own |
| ReqFile.SkippedLinesIgnored | severn/api/parsers/reqfile.py:83-112 | blank, comment and unusable lines can be deleted without changing the result |
| ReqFile.ParseWithoutIncludes | severn/api/parsers/reqfile.py:76-150 | without includes the result is the dependencies of the requirement lines, in order, or the first failure |
| ReqFile.ParseFileWellNamed | severn/api/parsers/reqfile.py:76-150 | every dependency the parser returns has a non-empty name with no space and is not editable, nested files included |
| LegacyConstraints.OrInf | severn/api/requirements.py:136-141 | a field becomes infinity exactly when it is absent or `0`; otherwise it is the given number |
| LegacyConstraints.MaybeInt | severn/api/requirements.py:175-176 | a number exactly when the group matched |
| LegacyConstraints.FromMatch | severn/api/requirements.py:178-193 | succeeds exactly when the label is `a`, `b` or `rc` (or absent); keeps the written number of release segments and the comparator unchecked; no tag is a finite `0` |
| LegacyConstraints.FromString | severn/api/requirements.py:159-193 | a text the pattern rejects is a `ValueError`; success exactly when it matches with a known label |
| LegacyConstraints.Tilde | severn/api/requirements.py:195-201 | `~=` raises exactly when the prefixes agree and the next field does not exist; when both keys have that field it accepts exactly when the prefixes agree and the candidate's field is not below the constraint's |
| LegacyConstraints.TildeFourth | severn/api/requirements.py:195-201 | with four release numbers written, `~=` pins the epoch and the three release numbers the key holds, and its last comparison falls on the alpha field |
| LegacyConstraints.Compare | severn/api/requirements.py:205-214 | an unknown comparator is a `KeyError`; every comparator but `~=` gives a verdict |
| LegacyConstraints.LikesVersion | severn/api/requirements.py:203-214 | the candidate's parse error comes before the comparator lookup |
| LegacyConstraints.Complement | severn/api/requirements.py:205-214 | `>`/`<=` and `<`/`>=` give opposite verdicts on every key |
| LegacyConstraints.TildeRelease | severn/api/requirements.py:195-201 | with one to three release numbers written, `~=` pins the epoch and all but the last written number, and ignores every later field |
| LegacyConstraints.TildeWide | severn/api/requirements.py:195-201 | with ten or more release numbers written, `~=` rejects every other key and raises on its own |
| LegacyConstraints.ZeroTagIsUntagged | severn/api/requirements.py:136-141 | a pre-release, `-N` post, labelled post or dev tag numbered `0` (or a pre-release label without a number) gives the same constraint as the text without those tags, so `2.8.2.dev0`, `2.8.2a0`, `2.8.2-0` and `2.8.2` are equal |
| LegacyRequirements.New | severn/api/requirements.py:217-235 | no or empty constraints gives `None`; otherwise success exactly when every text parses, keeping their results; other attributes unchanged |
| LegacyRequirements.LikesVersion | severn/api/requirements.py:237-242 | true without constraints; otherwise true exactly when every constraint likes the version |
| LegacyRequirements.SplitOrNone | severn/api/requirements.py:269-271 | `None` exactly for an absent or empty group; otherwise parts that join back to the group |
| LegacyRequirements.StepOf | severn/api/requirements.py:253-256 | a line is skipped exactly when it is empty or a comment |
| LegacyRequirements.ParseLinesAppend | severn/api/requirements.py:249-282 | the parse of two blocks is the first block's dependencies followed by the second's, the first error winning |
| LegacyRequirements.OnePerLine | severn/api/requirements.py:252-280 | without includes every non-blank, non-comment line gives exactly one dependency, in order |
| LegacyRequirements.IncludeKeepsOwn | severn/api/requirements.py:263-280 | a `-r` line gives the nested file's dependencies followed by one built from the line itself |
| LegacyRequirements.IncludeLine | severn/api/requirements.py:263-280 | `-rPATH` nests `PATH` and adds a dependency with no name, constraints or location |
| LegacyRequirements.EditableLine | severn/api/requirements.py:266-280 | `-ePATH` adds a nameless editable dependency located at `PATH` |
| LegacyAgreement.EmbedKeyOrder | severn/api/requirements.py:111 | reading the sentinel as infinity preserves and reflects both the order and the equality of keys |
| LegacyAgreement.CompareAgrees | severn/api/requirements.py:203-214 | every comparator but `~=` gives the same verdict as the current constraint on keys within the sentinel |
| LegacyAgreement.KeysAgree | severn/api/requirements.py:159-193 | on texts whose numbers are moderate and whose tags are non-zero, both parsers build the same key, up to the sentinel, and the same comparator |
| LegacyAgreement.ZeroTagDiffers | severn/api/constraint.py:159-165 | `1.0a0` sorts below `1.0` in the current key; the legacy half, a `0` tag read as none, is `LegacyConstraints.ZeroTagIsUntagged` |
| LegacyAgreement.TildePrereleaseDiffers | severn/api/requirements.py:201 | legacy `~=X.Y.Z` accepts a pre-release of `X.Y.Z`, which the current `~=` rejects |

## Left out

- File reading, the `async` iteration and `Path` objects are left out. A file system is a map from path texts to contents, and a missing path is `FileNotFound`.
- Path normalisation is not modelled: repeated `/`, a trailing `/`, `.` and `..` components are kept as written, and a leading `//` is treated as `/`. The parent-directory fallback joins texts with `/`, and `exists()` is a lookup in the map.
- Logging and the `warnings.warn` call are left out. A line without a package is skipped, as in the source.
- The `Representable` repr, `__aenter__`/`__aexit__` and the `RequirementsFile.__init__` path wrapping are left out, because they compute nothing the parser uses.
- Lines are split at `\n` only. `str.splitlines` and text-mode reading also split at `\r` and other separators, which the model keeps inside a line.
- ReqFile.ParseFile: include cycles, where Python raises `RecursionError`, are cut off by a `fuel` nesting bound that returns `IncludeTooDeep`. `LegacyRequirements.ParseFile` does the same.
- Dictionary insertion order of `env_markers` is not kept, because a map has no order. Equality of the stored pairs is what the lemmas state.
- The `con_file` and `local` groups are matched but their values are unused by the source, so only their effect on the match is modelled; `LocalVersion.LocalIgnored` states that a local label never changes the result.
- `float("inf")` is the `Inf` case of `LegacyConstraints.Ext`. Comparisons between `inf` and integers are exactly what the model keeps; no other float is involved.
- `from_string`'s exception messages are not modelled. Errors are kinds, not texts.
- `LegacyRequirements.Dependency.env_markers` stays a list of texts, as in the source.
- ConstraintProperties.CompatibleRelease: stated for one to four written release numbers. With five or more, the compared prefix reaches into the tag fields, and no lemma restates `Constraints.FuzzyAccepts` for that case.
- ReqFile.ClassifyReadable: stated only for lines without whitespace whose name, extras, version and markers the grammar reads back field by field. `ReqFile.SpacesIgnored` extends it to the same lines with spaces anywhere. For lines outside that shape, `ReqFile.Classify` and `ReqFile.ClassifyRequirement` state only the blank and comment test, and that a requirement is never editable and has a non-empty, space-free name.

## Findings

| source | as written | input that shows it | evidently intended | confidence | as-written member | corrected member |
|---|---|---|---|---|---|---|
| severn/api/parsers/reqfile.py:128 | the constraint texts are parsed with `Constraint.from_string` before they are passed to `Dependency`, whose constructor parses them again, so `from_string` receives a `Constraint` and raises `TypeError` | a requirements file holding the line `docopt==0.6.1` | pass the constraint texts unparsed, as `tests/api/parsers/test_reqfile.py:79-85` expects, so the line gives a `docopt` dependency with one `==0.6.1` constraint | not executed | ReqFile.BuildAsWritten (ReqFile.AsWrittenRejectsConstraints) | ReqFile.Build (used by ReqFile.StepOf and ReqFile.ParseFile) |
