# unique-version, modelled in Dafny

`generate` (src/index.ts) builds a "unique version" record out of a version
string and a short hash suffix. It merges the caller's options over the
defaults (`input: 'package.json'`, `type: 'file'`, `hashSize: 7`,
`git: true`). It rejects an empty `input` and a `hashSize` outside 1..40.
It takes the version either from the `version` field of a JSON file or from
`input` itself, splits it on `.` into major, minor and patch, and then
appends a hash. The hash is either the first `hashSize` characters of
`git rev-parse HEAD` or `hashSize` random characters of `abcdef0123456789`.
All five fields of the result are `null` whenever validation or the version
source fails; when git cannot be run, the record comes back partly filled.

Layout:

- `wrappers.dfy`: `Option`, standing for `null` / `undefined`.
- `options.dfy` (module `Options`): holds `UniqueVersionOptions` as
  the caller writes it. Each optional property is a `Field`: left out,
  written as `undefined`, or given. The module also has the spread merge
  `Merge` and the validation predicate `Accepted`. The property `type` is
  called `sourceType`, because `type` is a Dafny keyword.
- `components.dfy` (module `Components`): `version.split('.')` as
  `SplitOnDot`, its inverse `Join`, and the padding `Segment`.
- `generator.dfy` (module `Generator`): the `UniqueVersion` record and the
  `Environment` that holds the three effects. It contains `Resolve`, a pure
  definition of `generate` stage by stage, and `Generate`, the imperative
  method. `Generate` fills in `ret` field by field, builds the random hash
  in a counted loop and returns at the first failure, as the source does.
  It is proved equal to `Resolve`.
- `properties.dfy` (module `Properties`): lemmas that state what `generate`
  promises, over `Resolve`.

The three external effects are parameters of `Environment`:

- `readPackage(path)`: the combined outcome of `readFileSync` and
  `JSON.parse`. It is an exception, a string `version`, or a `version`
  of another type.
- `gitHead`: the standard output of `execSync('git rev-parse HEAD')`,
  or `None` when it throws.
- `draw(i)`: the value of `Math.floor(Math.random() * 16)` at the i-th
  iteration.

`Generate` also returns `effects`, the file reads and git calls it made, in
order. This makes statements such as "nothing is read before validation"
provable.

The `UniqueVersion` interface (src/index.ts:11-17) invites an all-or-nothing
reading of its null fields: a failed call is all-null, a successful one is
fully set. Where the code departs from that reading, or from what the
options' names suggest, the model follows the code:

- When git cannot be run, the record has already been filled in. `full` is
  the bare version, the components are set and `hash` is `""`
  (src/index.ts:76-80, 100-101). The record is not all-null, although it
  is a failure (`GitFailureKeepsVersion`).
  What does hold for every input is that the five fields are all set or all
  null (`AllOrNothing`).
- An empty `input` fails for every `type`, not only for `type: 'string'`.
- A `hashSize` that is "absent" only fails when it is written out as
  `undefined`. A left-out `hashSize` takes the default 7.
- `type: undefined` matches neither branch. It leaves the version `""`,
  which is then accepted and gives `full == "-" + hash`
  (`UndefinedTypeUsesEmptyVersion`).
- A file whose `version` is `""` gives a populated record, while the
  literal `""` is rejected. The file and literal sources agree only on a
  non-empty version (`FileMatchesLiteral`, `EmptyFileVersionDiffers`).
- Git can succeed with an empty output. `hash` is then `""` and `full` is
  `version + "-"`. So `hash == ""` alone does not tell a git failure from
  a success.

## Model

| member | source | states |
|---|---|---|
| `Options.Merge` | src/index.ts:21-39 | A missing options object gives the defaults. Each property left out keeps its default, one written as `undefined` becomes `undefined`, and one given a value takes that value. |
| `Options.Spread` | src/index.ts:36-39 | The value one property takes in the spread; what it yields is stated by `Options.Merge`'s contract. |
| `Options.Accepted` | src/index.ts:41-48 | The two early exits; stated over the caller's options by `Properties.AcceptedIff`, and their outcome by `Properties.EmptyInputFails` and `Properties.BadHashSizeFails`. |
| `Options.Truthy` | src/index.ts:85 | JavaScript truthiness of the merged `git`; `undefined` selects the random branch, as `Properties.RandomStrategy` and `Properties.GitStrategy` use it. |
| `Components.Segment` | src/index.ts:72-74 | `components[i]`, or `""` when missing; stated by `Components.ComponentsOfJoin` and `Components.TestVersionComponents`. |
| `Generator.VersionOf` | src/index.ts:50-68 | The version text or its failure; stated by `Properties.UnusableFileFails`, `Properties.LiteralVersion`, `Properties.UndefinedTypeUsesEmptyVersion` and `Properties.FileMatchesLiteral`. |
| `Generator.HashOf` | src/index.ts:82-96 | The git or random hash, `None` when git fails; stated by `Properties.GitStrategy`, `Properties.RandomStrategy`, `Properties.GitFailureKeepsVersion` and `Properties.HashSizeMonotone`. |
| `Generator.Assemble` | src/index.ts:71-80 | The record for a version and a hash outcome; stated by `Properties.ComponentsOfResult`, `Properties.AllOrNothing` and `Properties.GitFailureKeepsVersion`. |
| `Generator.Resolve` | src/index.ts:20-105 | The reference definition of `generate`; `Generator.Generate` is proved equal to it, and every `Properties` lemma states a property of it. |
| `Components.SplitOnDot` | src/index.ts:71 | The split has at least one segment and no segment contains `.`. |
| `Components.JoinSplit` | src/index.ts:71 | Joining the segments back with `.` gives the version again, so the split loses nothing. |
| `Components.SplitJoin` | src/index.ts:71 | The split of a join of one or more dot-free segments gives those segments back. |
| `Components.ComponentsOfJoin` | src/index.ts:72-74 | Major, minor and patch are segments 0, 1 and 2, with `""` for a missing one. Later segments are not exposed. |
| `Components.TestVersionComponents` | tests/test.ts:19-57 | "1", "1.0", "1.0.0" and "1.0.0.0" give the components the tests expect, the fourth segment dropped. |
| `Generator.TakeAtMost` | src/index.ts:88 | `substr(0, n)` is a prefix of the git output of length min(n, its length). |
| `Generator.RandomHash` | src/index.ts:91-95 | The random hash has exactly n characters, each one of `abcdef0123456789`. |
| `Generator.Generate` | src/index.ts:20-105 | The step-by-step function returns the record and the external calls of the reference definition `Resolve`, for every options value and environment. |
| `Properties.AcceptedIff` | src/index.ts:41-48 | Validation passes exactly when there are no options, or when `input` is non-empty and `hashSize` is left out or given in 1..40. |
| `Properties.EmptyInputFails` | src/index.ts:41-43 | An empty `input` gives the all-null record with no file read and no git call, whatever the other options are. |
| `Properties.BadHashSizeFails` | src/index.ts:45-48 | A `hashSize` that is `undefined`, at most 0 or above 40 gives the all-null record with no external call. |
| `Properties.UnusableFileFails` | src/index.ts:52-68 | An unreadable or unparsable file, or a `version` that is not a string, gives the all-null record after that one read, with no git call. |
| `Properties.AllOrNothing` | src/index.ts:28-104 | Every record is all-null or has all five fields set. It is all-null exactly when validation or the version source failed. |
| `Properties.ComponentsOfResult` | src/index.ts:71-79 | Major, minor and patch are segments 0, 1 and 2 of the version. `full` starts with all the segments joined by `.`. |
| `Properties.RandomStrategy` | src/index.ts:89-99 | Without git the hash cannot fail. It has `hashSize` characters of the alphabet, and `full` is `version-hash`. |
| `Properties.RandomHashCovers` | src/index.ts:91-95 | Every string over the alphabet is the hash of some stream of draws. |
| `Properties.LiteralVersion` | src/index.ts:61-62 | With `type: 'string'` the version is `input` verbatim. `full` is `input-hash`, or the bare `input` when git fails, and the only external call is git. |
| `Properties.GitStrategy` | src/index.ts:85-88 | With git output `out`, the hash is the prefix of `out` of length min(hashSize, \|out\|). `full` is `version-hash`, and git runs after the one optional file read. |
| `Properties.GitFailureKeepsVersion` | src/index.ts:76-101 | When git fails, the record keeps `full` = version and the three components, with `hash = ""`. It is not all-null and there is no random fallback. |
| `Properties.HashSizeMonotone` | src/index.ts:82-96 | In the same environment, the hash for a smaller `hashSize` is a prefix of the hash for a larger one. |
| `Properties.FileMatchesLiteral` | src/index.ts:52-63 | A file whose `version` is a non-empty `v` gives the same record as the literal `v` with the same hash options, and the same external calls plus the one read of the file once validation passes. |
| `Properties.EmptyFileVersionDiffers` | src/index.ts:41-63 | A file version `""` gives a populated record, while the literal `""` gives the all-null one. |
| `Properties.UndefinedTypeUsesEmptyVersion` | src/index.ts:50-63 | `type: undefined` reads nothing and uses the version `""`. The components are all `""` and `full` is `-hash`, or `""` when git fails. |
| `Properties.EffectsInOrder` | src/index.ts:52-88 | A call reads at most the file `input`, then runs git at most once. Git runs only with `git` truthy and a version in hand. |
| `Properties.DefaultsRun` | src/index.ts:21-26 | Without options, the call reads `package.json`. With a string version it then runs git for a 7-character hash; otherwise it gives the all-null record. |

## Left out

- `readFileSync` and `JSON.parse`: foreign I/O and parsing. Their combined outcome is the parameter `readPackage`. Which JSON documents fail to parse is not modelled.
- `execSync('git rev-parse HEAD')`: process invocation. Its standard output, or its failure, is the parameter `gitHead`.
- `Math.random()` and `Math.floor`: floating point and nondeterminism. The draws are the parameter `draw`, a stream of indices in 0..15. Uniformity of the distribution is not modelled, only that every hash over the alphabet can occur (`RandomHashCovers`).
- `hashSize` is an integer. JavaScript numbers that are not integers are not modelled. In particular `NaN` passes the validation at src/index.ts:45-46, gives an empty random hash and a `substr` of length 0.
- The `type` option takes only 'file', 'string' or `undefined`, as the interface declares. A different string at run time would behave like `undefined`.
- `input` is always a string, as the interface requires. An untyped caller that omits it is not modelled.
- tests/test.ts as a program: console output, colouring, counters and `process.exit`. Only its expected components for "1" to "1.0.0.0" are restated (`TestVersionComponents`). Its `mustAllBe` compares each field with itself, so its file-versus-literal test asserts nothing. `FileMatchesLiteral` states that equivalence from the code instead.
- Strings are sequences of Dafny `char`s (Unicode scalar values), while JavaScript strings are UTF-16 code units: `substr` at src/index.ts:88 counts code units, and a lone surrogate read from JSON cannot be represented. For the hexadecimal output of `git rev-parse` the two counts agree.
