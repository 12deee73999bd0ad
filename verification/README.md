# feller: secret collection, GitHub secret synchronisation and rendering

feller stands in for the `teller` secrets tool inside GitHub Actions. This
project models its core in Dafny and proves properties of that model.

- **Collection.** feller reads a `.teller.yml` configuration and collects
  secrets from two kinds of provider:
  - `google_secretmanager` providers read environment variables through
    explicit `fromKey: toKey` bindings. Each unset or empty variable is
    reported as a missing variable.
  - `dotenv` providers read `KEY=VALUE` files, in mapping mode (explicit
    bindings) or in discovery mode (every key of the file).
  - All GSM providers are merged first, then all dotenv providers, so a
    dotenv value wins over a GSM value for the same output key.
- **Rendering.** The `run`, `sh` and `export` commands share that
  collection step:
  - each stops with a "missing variables" error unless `--silent` is given;
  - `run` builds the child's environment;
  - `sh` prints shell-quoted `export` lines through a hand-written
    replace-all;
  - `export` renders the env or CSV format (or JSON/YAML), with the
    escaping each format needs.
- **Synchronisation.** `github secret add` uploads the GSM secrets to
  GitHub:
  - the output keys that teller prints are mapped back to their GSM keys;
  - each key, in each scope (repository, then optionally Dependabot), is
    created, updated or skipped under one of three overwrite strategies
    (force, skip-existing, confirm-overwrite);
  - confirm-overwrite uses a sticky yes / no / yes-to-all / no-to-all
    prompt;
  - a run stops at the first failing `gh secret set` call;
  - each run ends with a statistics summary.

What stays outside the model, and how it enters:
- **Inputs.** The environment, the files and the lines typed at the prompt
  are plain inputs:
  - the environment is a map;
  - the files are a map from path to scanned lines;
  - the typed lines are a sequence.
- **Oracles.** Calls into other programs are oracles:
  - whether `gh secret set` fails for a (key, scope) pair;
  - teller's printed secrets, or a failure to obtain them.
- **Map order.** Go visits maps in an unspecified order. Wherever the
  visiting order matters, it is an explicit sequence parameter. The
  properties proved either hold for every such order, or say how the
  order decides the result.

Modules, in dependency order:
- `Outcome`: `Option` and `Result`.
- `Text`: `TrimSpace`, one-character `ReplaceAll` and `sort.Strings` from
  Go's standard library.
- `Namespace`: a loop of map writes.
- `Config`.
- `EnvFile`: `loadEnvFile`.
- `Bindings`: the binding loops shared by both adapters.
- `Providers`.
- `Missing`: the three missing-variable error builders and the guard.
- `Mask`.
- `Shell`: the `sh` command.
- `Export`.
- `Run`.
- `Prompt`.
- `Sync`: the `github secret add` loop.
- `Teller`: the GSM filter of `getSecretsFromTeller`.

The provider kinds are the literal strings `google_secretmanager` and
`dotenv` (cmd/github_secret_add.go:299, pkg/providers/providers.go:70).
The summary's "No secrets processed" line counts failed operations in its
total (cmd/github_secret_add.go:201).

The model also follows the code where the code does not escape: a CSV row
writes its key between quotes without escaping it (cmd/export.go:152).

`GetProvidersByKind` builds a fresh map. In this functional model the
configuration is an immutable value, so "the configuration is not
modified" holds by construction. No member states it.

## Model

| member | source | states |
|---|---|---|
| Config.ProvidersByKind | pkg/config/config.go:103-111 | every selected provider has the requested kind and is the configured provider under the same name; every configured provider of that kind is selected |
| Config.ProvidersByUnknownKind | pkg/config/config.go:103-111 | a kind that no provider has selects the empty map |
| Config.ProvidersByKindPartition | pkg/config/config.go:103-111 | different kinds select disjoint sets of names, and every provider is selected by its own kind |
| Config.ProvidersByKindIdempotent | pkg/config/config.go:103-111 | selecting again by the same kind changes nothing |
| Text.TrimSpace | pkg/providers/providers.go:202 | the result is a window of the input that starts and ends with no white space, and everything outside it is white space |
| Text.ReplaceCharLength | cmd/export.go:150 | replacing a character lengthens the text by the number of occurrences times the growth of each replacement |
| Text.ReplaceCharAppend | cmd/export.go:127-129 | character-wise replacement distributes over concatenation |
| Text.Sort | cmd/sh.go:59 | sorting distinct keys yields a strictly ascending permutation of them |
| Text.SortedListingUnique | cmd/sh.go:54-59 | two strictly ascending listings of the same set are equal |
| Text.SortedKeys | cmd/export.go:118-122 | the sorted keys list every map key exactly once, in strictly ascending order |
| Text.SortedKeysDeterministic | cmd/export.go:118-122 | the sorted keys do not depend on the order in which the map was visited |
| Namespace.ApplyWrites | cmd/github_secret_add.go:313-367 | after a loop of map writes the keys are the old keys plus the written ones |
| Namespace.ApplyWritesLast | cmd/github_secret_add.go:315 | a key holds the value of its last write |
| Namespace.ApplyWritesProvenance | cmd/github_secret_add.go:367 | a written key holds the value of one of its writes |
| EnvFile.SplitFirst | pkg/providers/providers.go:211-212 | there is no split exactly when there is no `=`; otherwise the line is the part before, the `=` and the part after, and the part before holds no `=` |
| EnvFile.SplitFirstUnique | pkg/providers/providers.go:211 | the split happens at the first `=`: later `=` stay in the value |
| EnvFile.Unquote | pkg/providers/providers.go:217-224 | a value wrapped in a matching pair of `"` or `'` loses that pair; any other value is unchanged |
| EnvFile.UnquoteOnce | pkg/providers/providers.go:217-224 | exactly one outer pair is removed, and inner quotes are kept |
| EnvFile.ParseLine | pkg/providers/providers.go:202-226 | a line defines nothing exactly when, trimmed, it is empty, starts with `#` or has no `=`; otherwise the key is the trimmed text before the first `=` and the value the unquoted trimmed text after it |
| EnvFile.ParseCleanLine | pkg/providers/providers.go:202-226 | a well-formed `KEY=VALUE` line parses to its key and its unquoted value |
| EnvFile.SkippedLineContributesNothing | pkg/providers/providers.go:205-230 | a blank, comment or `=`-less line leaves the parsed file as it was |
| EnvFile.ParseEnv | pkg/providers/providers.go:196-231 | every key of the parsed file is defined by one of its lines |
| EnvFile.AssignFrom | pkg/providers/providers.go:210-226 | every key assigned from the parsed lines is defined by one of them |
| EnvFile.ParseEnvKeys | pkg/providers/providers.go:200-231 | a key is in the parsed file exactly when some line defines it |
| EnvFile.ParseEnvLastLineWins | pkg/providers/providers.go:226 | a key defined on several lines holds the value of the last one |
| EnvFile.LoadEnvFile | pkg/providers/providers.go:186-240 | loading fails exactly when the file cannot be opened or the scanner fails; otherwise the result is the parsed lines |
| Bindings.BindAllKeys | pkg/providers/providers.go:123-136 | an output key is present exactly when it was present before or some binding onto it resolves |
| Bindings.BindAllProvenance | pkg/providers/providers.go:170-177 | each present value was there before or is the source value of a binding onto that key |
| Bindings.BindAllLast | pkg/providers/providers.go:126 | a key holds the value of the last resolving binding onto it |
| Bindings.BindAllUntouched | pkg/providers/providers.go:123-136 | a key that no resolving binding targets keeps its value |
| Bindings.BindAllOnto | pkg/providers/providers.go:170-177 | the bindings' writes overlay what was already collected |
| Providers.Present | pkg/providers/providers.go:125 | the variables that count as set are exactly those whose `os.Getenv` value is non-empty |
| Providers.GsmBindingOutcome | pkg/providers/providers.go:123-136 | a binding either sets its output key to the non-empty variable and reports nothing, or leaves the secrets alone and appends exactly one missing-variable record |
| Providers.MissingOf | pkg/providers/providers.go:125-135 | there is at most one record per binding, and each names the provider and a variable that is unset or empty |
| Providers.MissingOfMember | pkg/providers/providers.go:128-135 | a missing record is present exactly when it names a binding whose variable is unset or empty |
| Providers.GsmMaps | pkg/providers/providers.go:112-137 | the missing records gathered before are kept in front, and every record added names the provider |
| Providers.CollectGsm | pkg/providers/providers.go:107-141 | every missing record names the provider; a provider without path maps collects nothing |
| Providers.GsmMapsFlat | pkg/providers/providers.go:112-137 | a GSM provider behaves as one pass over all its bindings, so a path map without keys contributes nothing |
| Providers.GsmSecrets | pkg/providers/providers.go:107-141 | an output key is collected exactly when a binding onto it names a non-empty variable, with that variable's value |
| Providers.GsmMissing | pkg/providers/providers.go:107-141 | the missing variables are exactly the bindings whose variable is unset or empty, attributed to the provider |
| Providers.DotenvPathMap | pkg/providers/providers.go:160-166 | in discovery mode every parsed key is added with its value |
| Providers.DotenvMappingMode | pkg/providers/providers.go:170-177 | mapping mode keeps exactly the bound keys present in the file, renamed to their output keys and with their values, and silently drops the others |
| Providers.DotenvDiscoveryFile | pkg/providers/providers.go:160-166 | a provider with one discovery-mode path map yields its file's parsed content unchanged |
| Providers.DotenvMaps | pkg/providers/providers.go:149-156 | an error names the path of one of the path maps, and that file cannot be loaded |
| Providers.CollectDotenv | pkg/providers/providers.go:145-183 | an error names the path of one of the provider's path maps, and that file cannot be loaded; a provider without path maps yields no secrets |
| Providers.DotenvMapsFails | pkg/providers/providers.go:149-156 | a dotenv provider fails exactly when one of its path maps cannot be loaded |
| Providers.DotenvMapsFirstError | pkg/providers/providers.go:152-156 | the error is that of the first unloadable path map |
| Providers.DotenvMapsOnto | pkg/providers/providers.go:145-183 | a provider's writes overlay what was collected before it |
| Providers.CollectSecretsWithResult | pkg/providers/providers.go:92 | the result's flag is set exactly when there are missing variables |
| Providers.GsmPhase | pkg/providers/providers.go:51-57 | every missing record was there before or names a visited provider |
| Providers.GsmPhaseMissing | pkg/providers/providers.go:51-57 | the missing variables are those of the providers visited, concatenated |
| Providers.GsmPhaseKeys | pkg/providers/providers.go:51-67 | a key is collected in the GSM phase exactly when some visited provider collected it |
| Providers.GsmPhaseUntouched | pkg/providers/providers.go:60-66 | a key that no visited GSM provider collects keeps its value |
| Providers.GsmPhaseLast | pkg/providers/providers.go:51-67 | a key holds the value of the last visited GSM provider that collects it |
| Providers.DotenvPhase | pkg/providers/providers.go:73-79 | an error is the error of one of the visited dotenv providers |
| Providers.DotenvPhaseFails | pkg/providers/providers.go:73-79 | the dotenv phase fails exactly when some visited provider has an unloadable path map |
| Providers.DotenvPhaseLoaded | pkg/providers/providers.go:73-79 | when the phase succeeds, every visited provider loaded all its files |
| Providers.DotenvPhaseUntouched | pkg/providers/providers.go:83-89 | a key that no visited dotenv provider collects keeps its value |
| Providers.DotenvPhaseLast | pkg/providers/providers.go:73-90 | when the phase succeeds, a key holds the value of the last visited dotenv provider that collects it |
| Providers.DotenvPhaseOnto | pkg/providers/providers.go:73-90 | the dotenv phase's writes overlay the GSM result |
| Providers.DotenvOverridesGsm | pkg/providers/providers.go:51-90 | collection succeeds exactly when the dotenv phase does, and the secrets are the GSM secrets with the dotenv secrets over them |
| Providers.CollectFailsIff | pkg/providers/providers.go:73-79 | collection fails, with no result, exactly when some dotenv provider of the configuration has an unloadable path map, whatever the visiting order |
| Providers.CollectMissingVars | pkg/providers/providers.go:51-57 | the missing variables are exactly the GSM bindings, over all GSM providers, whose variable is unset or empty |
| Missing.OfProviderMember | cmd/run.go:154-157 | a record is in a provider's group exactly when it is missing and belongs to that provider |
| Missing.Report | cmd/run.go:145-178 | there is an error exactly when the list is non-empty; it states the count and lists every variable, in order, for the workflow snippet |
| Missing.ReportGroups | cmd/run.go:153-165 | there is a group for exactly the providers named, and each group holds exactly that provider's records |
| Missing.HandleMissingVariables | cmd/run.go:145-151 | no error exactly when the list is empty; otherwise the error states the count |
| Missing.HandleMissingVariablesShell | cmd/sh.go:109-115 | no error exactly when the list is empty; otherwise the error states the count |
| Missing.HandleMissingVariablesExport | cmd/export.go:158-164 | no error exactly when the list is empty; otherwise the error states the count |
| Missing.Gate | cmd/run.go:91-94 | the command stops exactly when variables are missing and `--silent` is off, with the count of missing variables |
| Mask.Stars | pkg/providers/providers.go:101 | the repeat has the requested length and is all stars |
| Mask.MaskSecret | cmd/run.go:182-187 | the mask keeps the length; a value of at most four characters is all stars; a longer one keeps its first and last two characters and stars the rest |
| Mask.MaskReveals | pkg/providers/providers.go:99-104 | two values have the same mask exactly when they have the same length and, beyond four characters, the same first two and last two characters |
| Mask.MaskIdempotent | pkg/providers/providers.go:99-104 | masking a mask changes nothing |
| Shell.FirstFromSpec | cmd/sh.go:99-106 | the search from a position finds an occurrence with none before it from there, or reports that there is none |
| Shell.FirstIndexSpec | cmd/sh.go:99-106 | the reference index is -1 exactly when the pattern does not occur; otherwise it is the least occurrence |
| Shell.IndexOf | cmd/sh.go:99-106 | the scan returns the least position at which the pattern occurs, or -1; an empty pattern gives 0 |
| Shell.FirstFromSuffix | cmd/sh.go:87-93 | searching the remaining suffix finds the next occurrence in the whole string, shifted |
| Shell.ReplacedNone | cmd/sh.go:88-90 | with no further occurrence the rest of the text is copied |
| Shell.ReplacedAbsent | cmd/sh.go:86-94 | a string in which the pattern does not occur is returned unchanged |
| Shell.ReplacedFirst | cmd/sh.go:92-93 | the replacement from a position is the text up to the first occurrence, the replacement, and the replacement after the occurrence |
| Shell.ReplaceRound | cmd/sh.go:86-94 | one round of the loop keeps the invariant that the output so far plus the reference replacement of the rest is the whole result |
| Shell.ReplaceLast | cmd/sh.go:88-90 | the last round completes the reference replacement |
| Shell.ReplacedNonOverlapping | cmd/sh.go:86-94 | an example, not a general property: `aaaa` with `aa` replaced by `b` is `bb`, so occurrences are taken left to right without overlap |
| Shell.ReplaceAll | cmd/sh.go:80-96 | an empty pattern returns the input; otherwise the result is the left-to-right, non-overlapping replacement |
| Shell.ReplacedChar | cmd/sh.go:76 | with a one-character pattern the replacement is character by character |
| Shell.ShellEscape | cmd/sh.go:73-77 | every `'` becomes the four characters `'\''` and nothing else changes; the length grows by three per quote; text without `'` is unchanged |
| Shell.ExportShellLines | cmd/sh.go:54-67 | one line per secret; line `i` is the `export K='V'` line of the `i`-th key in strictly ascending order, with its value |
| Shell.ExportShellCovers | cmd/sh.go:54-67 | every secret has exactly one line, at its key's place in ascending order, holding its value |
| Shell.ShellEscapeRoundTrip | cmd/sh.go:63-66 | a shell reading the single-quoted word, in which each `'\''` stands for `'`, gets the value back |
| Shell.ExportShell | cmd/sh.go:43-67 | the command fails exactly when collection fails, passing the error on, or variables are missing without `--silent`; otherwise it prints the sorted export lines of the collected secrets |
| Export.EscapeEnvIsOnePass | cmd/export.go:127-129 | the three passes, backslash first, amount to one character-wise escaping |
| Export.EscapeEnv | cmd/export.go:127-129 | a value without backslash, `"` or newline is written unchanged |
| Export.EscapeEnvWellEscaped | cmd/export.go:127-129 | the escaped text is made of plain characters and the escapes `\\`, `\"` and `\n` |
| Export.WellEscapedSafe | cmd/export.go:127-129 | well-escaped text has no raw newline, and each `"` in it follows a backslash |
| Export.EscapeEnvSafe | cmd/export.go:127-131 | an escaped value has no raw newline and no unescaped `"`, so it cannot end its quoted line early |
| Export.EscapeEnvRoundTrip | cmd/export.go:127-129 | unescaping gives the value back, so the escaping loses nothing |
| Export.ExportEnvLines | cmd/export.go:116-134 | one `K="escaped"` line per key in ascending key order; no secrets, no lines |
| Export.ExportEnvCovers | cmd/export.go:116-134 | every secret has exactly one line, at its key's place in ascending order, and unescaping its value gives the secret back |
| Export.EscapeCsv | cmd/export.go:150 | the escaped value is longer by the number of `"` |
| Export.EscapeCsvRoundTrip | cmd/export.go:150 | undoubling the quotes gives the value back |
| Export.CsvRows | cmd/export.go:147-153 | one row per key in ascending key order, with the value's quotes doubled |
| Export.ExportCsvLines | cmd/export.go:136-155 | the header `key,value` always comes first, then the rows |
| Export.ExportSecrets | cmd/export.go:63-95 | a collection error is passed on; missing variables without `--silent` stop the command before any rendering; past the guard `json` and `yaml` give the document of the collected secrets, `env` the env lines and `csv` the CSV lines of them, and any other format is an unsupported-format error |
| Export.ExportDeterministic | cmd/export.go:79-94 | the output does not depend on the order in which the secrets were visited |
| Run.SecretKeys | cmd/run.go:136-142 | every key of the map appears exactly once, so the list is as long as the map |
| Run.Entries | cmd/run.go:118-122 | one `K=V` entry per secret |
| Run.ChildEnv | cmd/run.go:103-122 | with `--reset` the child's environment is exactly the secrets' entries; without it, the current environment followed by those entries |
| Run.EntriesExact | cmd/run.go:118-122 | every secret has an entry and no key has two |
| Run.RunCommand | cmd/run.go:84-122 | a collection error is passed on; the command stops for missing variables exactly when some are missing and `--silent` is off; otherwise it yields the child's environment |
| Prompt.Lower | cmd/github_secret_add.go:234 | each upper-case ASCII letter becomes its lower-case letter and every other character is kept, at the same position; no upper-case ASCII letter remains |
| Prompt.PromptForOverwrite | cmd/github_secret_add.go:208-253 | a global decision answers without reading input, and it is checked before dry-run; a dry run without one answers yes; the state only changes from undecided; yes-to-all only ever answers yes and no-to-all no |
| Prompt.FirstAnswerFrom | cmd/github_secret_add.go:227-251 | reading from a line on, the first recognised line decides, and the lines after it stay unread |
| Prompt.FirstAnswerDecides | cmd/github_secret_add.go:234-251 | `y`/`n` answer and keep the state; `ya`/`na` answer and set the sticky state; unrecognised lines before the answer are dropped |
| Prompt.EndOfInputDeclines | cmd/github_secret_add.go:228-232 | when input ends before a recognised answer, the answer is no and the state is unchanged |
| Sync.ValidateOverwriteFlags | cmd/github_secret_add.go:161-178 | the flags are rejected exactly when more than one strategy is set |
| Sync.UpdateStats | cmd/github_secret_add.go:493-502 | exactly the counter named by the result goes up by one; `failed` is never touched; an unknown result changes nothing |
| Sync.UpdateStatsProcessed | cmd/github_secret_add.go:493-502 | the number of processed operations goes up by one exactly for a known result |
| Sync.Mutate | cmd/github_secret_add.go:538-549 | a call fails exactly when it is real and the oracle fails it |
| Sync.SetIfNeeded | cmd/github_secret_add.go:505-551 | an absent key is created whatever the flags; an existing key is skipped under skip-existing, prompted under confirm-overwrite (skipped when declined), and otherwise updated; a secret is written exactly when the result is not "skipped" |
| Sync.Tasks | cmd/github_secret_add.go:469-487 | there is one task per key, or two with Dependabot |
| Sync.TasksOrder | cmd/github_secret_add.go:469-487 | each key's repository task comes right before its Dependabot task |
| Sync.TasksCover | cmd/github_secret_add.go:469-487 | the tasks are exactly the keys in the repository scope, plus the Dependabot scope when requested |
| Sync.SyncFrom | cmd/github_secret_add.go:469-489 | from task `i` on, with no failure every remaining task is counted once as created, updated or skipped; a failure happens at a remaining task, counts one failure and stops the count, so only the tasks before it are counted |
| Sync.SetGitHubSecrets | cmd/github_secret_add.go:464-490 | a run without failure has `failed` zero; a failed run has `failed` one, at one of the run's tasks, with exactly the tasks before it counted |
| Sync.SyncFromStops | cmd/github_secret_add.go:471-482 | after a failure no later key or scope is processed: only tasks before it were written |
| Sync.SetGitHubSecretsCounts | cmd/github_secret_add.go:464-490 | on success created, updated and skipped add up to the number of keys times the number of scopes; on failure `failed` is one |
| Sync.DryRunNeverFails | cmd/github_secret_add.go:562-569 | a dry run never fails and writes nothing |
| Sync.SetGitHubSecretsDryRun | cmd/github_secret_add.go:562-569 | a dry run of the whole loop never fails and changes nothing on GitHub, whatever the oracle says |
| Sync.DryRunPredictsStats | cmd/github_secret_add.go:505-569 | without prompting, a dry run reports the same statistics as a real run that does not fail |
| Sync.SkipExistingAllPresent | cmd/github_secret_add.go:514-520 | with skip-existing and every secret present, everything is skipped and nothing is written |
| Sync.Remote | cmd/github_secret_add.go:538-549 | after a run the remote holds the names listed before it and every secret set |
| Sync.SyncFromWritesAll | cmd/github_secret_add.go:529-549 | without skipping or prompting, a real run that does not fail writes every task |
| Sync.WrittenKept | cmd/github_secret_add.go:469-489 | a secret once written stays in the record of writes |
| Sync.NothingCreated | cmd/github_secret_add.go:514-541 | when every remaining secret exists, nothing more is created |
| Sync.AllUpdated | cmd/github_secret_add.go:529-549 | without skipping or prompting, a run over secrets that all exist and that does not fail updates every remaining task |
| Sync.SecondRunCreatesNothing | cmd/github_secret_add.go:464-551 | after a successful forced or default run, a second run against the updated remote creates nothing, and, if it neither skips nor prompts and does not fail, updates every key in every scope |
| Sync.Summary | cmd/github_secret_add.go:181-186 | the summary starts with the header of its kind of run |
| Sync.SummaryHolds | cmd/github_secret_add.go:181-205 | a counter's line is present exactly when the counter is non-zero, with its value; the closing note is present exactly when the total, failures included, is zero |
| Sync.SummaryOfRun | cmd/github_secret_add.go:201-204 | after a successful run the summary says "no secrets processed" exactly when there were no secrets, and never reports a failure |
| Teller.GsmBindingsMember | cmd/github_secret_add.go:310-318 | the bindings gathered are exactly those of the path maps of the GSM providers |
| Teller.Expected | cmd/github_secret_add.go:308-314 | the expected keys are exactly the output keys of the bindings |
| Teller.Reverse | cmd/github_secret_add.go:308-319 | the reverse map covers exactly the expected output keys |
| Teller.ReverseOfBinding | cmd/github_secret_add.go:309-315 | the reverse map covers exactly the expected keys, and maps each to the GSM key of a binding that produces it |
| Teller.ReverseLastBinding | cmd/github_secret_add.go:315 | when several bindings produce an output key, the last one visited decides its GSM key |
| Teller.Lookup | cmd/github_secret_add.go:366 | reading a missing key gives the empty string |
| Teller.FilterWritesMember | cmd/github_secret_add.go:364-372 | each write comes from a visited, expected output key, under its GSM key |
| Teller.GetSecretsFromTeller | cmd/github_secret_add.go:298-375 | no GSM providers gives the empty map without asking teller; otherwise the command fails exactly when teller does |
| Teller.FilterProvenance | cmd/github_secret_add.go:362-372 | every key of the result is the GSM key of a binding whose output key teller printed, with teller's value for it |
| Teller.FilterKeys | cmd/github_secret_add.go:362-372 | a GSM key is in the result exactly when an expected output key that teller printed maps back to it; other output keys are dropped |
| Teller.FilterRekeys | cmd/github_secret_add.go:308-372 | with one-to-one bindings each GSM key gets teller's value for its output key |
| Teller.GetSecretsContent | cmd/github_secret_add.go:308-372 | when teller succeeds, a GSM key is sent exactly when an output key that a GSM binding produces and teller printed maps back to it, and it carries teller's value for the output key of one of its bindings |

## Left out

- Logging (pkg/logger/logger.go and every `logger.Debug`/`logger.Verbose` call): logging does not affect behaviour.
- The fallback to the `teller` binary outside GitHub Actions, `isGitHubActions`, `findTellerBinary` and `execTeller` (cmd/root.go): they spawn processes or read the environment.
- `LoadConfig` and `findConfigFile` (pkg/config/config.go): they read files and call the YAML library. The configuration is an input value.
- `exportJSON` and `exportYAML` (cmd/export.go:98-114): they are library serialisations. The model renders them as a document that holds the secrets.
- Starting the child process (`executeDirectCommand`, `executeShellCommand`, cmd/run.go:189-257): it is I/O. The model stops at the environment handed to the child.
- `validateRequiredTools`, `getExistingGitHubSecrets`, `listGitHubSecrets` and the real `gh secret set` call (cmd/github_secret_add.go): they are processes. The model takes the two sets of existing names as input and a set of failing (key, scope) pairs as an oracle.
- Running `teller export json` and decoding its JSON (cmd/github_secret_add.go:321-358): it is a process. The model takes teller's output map, or a failure, as input.
- Prompt.PromptForOverwrite: reads the remaining input as a sequence of lines. It does not model a new `bufio.Scanner` per call buffering more than one line of standard input.
- Prompt.PromptForOverwrite: does not model a read error, which behaves like end of input.
- Sync.SetGitHubSecrets: the yes-to-all / no-to-all decision is a package-level variable in the source and survives between calls in one process. The model starts each run undecided, as a fresh process does.
- Mask.MaskSecret: counts characters, while Go counts bytes. For non-ASCII values the Go mask can differ in length and can split a multi-byte character.
- Prompt.Lower: is ASCII lower case. Go's `strings.ToLower` is Unicode-aware, but the two agree on every line that lowers to a recognised answer.
- Missing.Report: keeps the count, the per-provider groups and the list of variable names. It leaves out the wording and the layout of the message, whose group order follows Go map order.
- Sync.Summary: keeps which lines are printed and their numbers. It leaves out their wording.
- Shell.IndexOf: returns a character index where Go returns a byte index. The two agree on ASCII, and the output of `Shell.ReplaceAll`, which only uses the index to slice the same string, is the same for valid UTF-8.
- Strings are sequences of Unicode characters, so a value, a key or a file line that is not valid UTF-8 is not modelled.
- Go map iteration order is not modelled as a random choice. Each loop over a map takes the visiting order as an explicit sequence parameter, and no order among providers of the same kind is assumed.
- `cmd/env.go`, `cmd/github_secret.go`, `main.go` and the command-line flag wiring: they are plumbing.
- The orchestration in `addGitHubSecrets` (cmd/github_secret_add.go:110-158) is plumbing. It calls the modelled steps in sequence: flag validation, the teller filter, the existing-secret lookup, the loop and the summary.
