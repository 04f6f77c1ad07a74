# go-leo/config: merge engine, formatter registry and resource adapters in Dafny

This project models the sequential core of go-leo/config, a Go library that
collects configuration from files, environment variables, Nacos and Consul.
Each source's bytes are decoded by a formatter that is chosen by file
extension. The decoded `structpb.Struct` trees are then merged into one tree.

- **Value tree and merge** (`values.dfy`, `merge.dfy`). `Value` mirrors
  `structpb.Value`. `Copy` is `copyValue`, `MergeStruct` is `mergeStruct`,
  `MergeList` is `mergeList`, and `Merge` is `merger.Merge`. `IsMergeOf` is a
  declarative reference for a merge: for each key, the last input that defines
  it decides its value, and that value replaces the earlier one wholesale.
  `Merge` is proved to meet it, and `MergeOfIsUnique` shows it fixes the result.
- **Formatter registry** (`format.dfy`). The process-wide `formatters` map is
  passed explicitly as a `map<string, F>`. Keys are lower-cased on register and
  on lookup.
- **Extension derivation** (`paths.dfy`).
  `strings.TrimPrefix(filepath.Ext(name), ".")`, as the file, Nacos and
  Consul constructors use it. The env constructor always uses the `env`
  formatter and derives no extension.
- **Byte utilities** (`bytes.dfy`). `bytes.Compare`, sorting by it, prefix
  tests and `bytes.Join`, as the environment adapter uses them. `LexLess` is
  an independent definition of lexicographic order, and `Compare` is proved
  to follow it.
- **Resource adapters** (`adapter.dfy`, `file.dfy`, `env.dfy`, `nacos.dfy`,
  `consul.dfy`). A handler's state is its last-seen payload, an
  `Option<Bytes>`. One handler step maps (last seen, event, fetched bytes) to
  (new last seen, what is sent on `notifyC` or `errC`). `Adapter.Deliver` is
  the shared tail: deduplicate, then parse, then notify and record. Each
  adapter adds its own pre-filter: the file event filter, the env poll, the
  Nacos callback and the Consul payload type check. `Adapter.Run` folds the
  step over a sequence of payloads. `Adapter.NoDuplicateNotification` proves
  that byte-identical content is never notified twice in a row. `Adapter.Dedups`
  is the per-step invariant behind this. Every adapter's step is proved to keep
  it, and `Adapter.ChainNeverRepeats` extends the guarantee to any sequence of
  such steps, including read failures, filtered events and watcher errors.

Nothing here does I/O. File contents, the environment, fetch results, watcher
events, the context state and `filepath.Clean` are all inputs. A formatter is
represented by its `Parse` function, `Bytes -> Result<Fields, Error>`.
Values are immutable, so no operation can change its inputs, and `Merge`
never alters its arguments. Node identity is not part of the model (see
"## Left out").

## Model

| member | source | states |
|---|---|---|
| Merge.Copy | merge/merge.go:45-84 | The result is well formed, and equals the input when the input is well formed. A nil or unknown node becomes null. A struct keeps its keys and a list its length, and each field or item is the copy of the original one, so nil nodes become null at any depth while their well-formed siblings are kept. |
| Merge.MergeStruct | merge/merge.go:28-32 | The result's keys are the union of both key sets. Each source key holds a copy of the source value, even where the target had one. Every other target key is unchanged. |
| Merge.MergeList | merge/merge.go:36-40 | The target's items are kept as a prefix. Copies of the source items follow in order, so the length is the sum of both lengths. |
| Merge.Merge | merge/merge.go:18-24 | The result meets the reference `IsMergeOf`: it is well formed, a key is present iff some input defines it, and it holds a copy of the value from the last input that defines it. |
| Merge.MergeOfIsUnique | merge/merge.go:18-31 | Any two results that meet `IsMergeOf` for the same inputs are equal. |
| Merge.MergeOfNothing | merge/merge.go:18-23 | Merging zero inputs gives the empty struct. |
| Merge.MergeLastWins | merge/merge.go:20-22 | Appending an input adds its keys, and they hold copies of its values. Every other key keeps its earlier value. |
| Merge.MergeReplacesWholesale | merge/merge_test.go:47-53 | When both inputs hold structs under a key, the merged struct has exactly the later struct's inner keys. An inner key that only the earlier struct had does not survive. |
| Merge.MergeIgnoresEmpty | merge/merge.go:28-31 | Inserting an input with no fields at any position leaves the result unchanged. |
| Merge.MergeIdempotent | merge/merge.go:18-31 | Merging a merge result on its own reproduces it. |
| Merge.CopyKeepsSiblings | merge/merge.go:45-84 | Copying a struct with a nil field `a` and a number field `b` gives null for `a` and keeps `b`. |
| Merge.CopyIdempotent | merge/merge.go:45-84 | Copying a copy gives the same value. |
| Merge.MergeStructsExample | merge/merge_test.go:9-58 | The test scenario: `name` is kept, `age` becomes 31, and `address` becomes `{zip}` without `city`. `email` is added. |
| Merge.MergeNotCommutative | merge/merge.go:20-22 | Swapping two inputs that disagree on a key changes the result. |
| Format.ToLower | format/format.go:39 | Keeps the length and lower-cases each character. |
| Format.ToLowerIsLower | format/format.go:39 | A lower-cased string is unchanged by a second lower-casing. |
| Format.Register | format/format.go:37-41 | The key set gains exactly the lower-cased extension, which now maps to the new formatter. Every other entry is unchanged. All-lower-case keys stay all lower case. |
| Format.GetFormatter | format/format.go:52-57 | A formatter is found iff the lower-cased extension is a key. The one found is stored there. |
| Format.LookupIgnoresCase | format/format.go:52-56 | Two extensions with the same lower-case form find the same result. |
| Format.RegisterThenLookup | format/format.go:37-56 | After registering `e`, every spelling of `e` in any letter case finds the new formatter. |
| Format.RegisterFrame | format/format.go:39 | Registering `e` leaves the lookup of every extension with another lower-case form unchanged. |
| Format.RegisterLastWins | format/format.go:39 | Registering the same extension twice equals registering only the second formatter. |
| Format.Registered | format/format.go:13-41 | A registry built by any sequence of registrations has only lower-case keys. |
| Format.LookupFindsAny | format/format.go:37-57 | After a sequence of registrations from the empty map, lookup finds a formatter iff some registration's extension has the query's lower-case form. |
| Format.LookupFindsLast | format/format.go:37-57 | The formatter found is the one from the last registration whose extension has the query's lower-case form. |
| Format.LookupAfterRegistrations | format/format.go:37-57 | After a sequence of registrations, lookup finds a formatter iff some registration had the same lower-case form. It then finds the last such formatter; otherwise it reports not found. |
| Paths.DotIndex | resource/file/resource.go:104 | Scans back from the end and stops at a separator or the start of the string. The result is the index of a dot with no dot or separator after it, or -1 when the last element has no dot. |
| Paths.Ext | resource/file/resource.go:104 | The result is empty iff the path's last element has no dot. Otherwise it is the path's suffix from a dot, and after that dot it holds no dot or separator. |
| Paths.TrimDot | resource/file/resource.go:104 | Removes exactly one leading dot when one is present. Otherwise it leaves the string unchanged. |
| Paths.Extension | resource/file/resource.go:104-107 | The result is empty iff the last element has no dot or ends in a dot. Otherwise the name is the stem, then a dot, then the extension, which holds no dot or separator. |
| Paths.ExtensionExamples | resource/file/resource.go:104-107 | `conf.d/app` (a dot only in the directory) and `app.` (a trailing dot) both have an empty extension. |
| Bytes.Compare | resource/env/resource.go:44 | Returns -1, 0 or +1, and returns 0 iff the slices are equal. `Bytes.CompareIsLexicographic` gives the order. |
| Bytes.CompareIsLexicographic | resource/env/resource.go:44 | `Compare` returns -1 exactly when `a` sorts before `b` lexicographically, and +1 exactly when `b` sorts before `a`. Lexicographic order (`LexLess`) is defined independently: equal up to some position, where `a` ends while `b` goes on, or `a` has the smaller byte. |
| Bytes.CompareFlip | resource/env/resource.go:44 | Swapping the arguments negates the answer. |
| Bytes.BelowTransitive | resource/env/resource.go:44 | The ordering given by `bytes.Compare` is transitive. |
| Bytes.Insert | resource/env/resource.go:44 | Inserting into a sorted list keeps it sorted and adds exactly one copy of the element. |
| Bytes.Sort | resource/env/resource.go:44 | The output is sorted by `bytes.Compare` and is a permutation of the input. |
| Bytes.SortedUnique | resource/env/resource.go:44 | Two sorted permutations of the same multiset are equal, so any sort algorithm gives the same result. |
| Bytes.HasPrefix | resource/env/resource.go:37 | `strings.HasPrefix`: the slice starts with the prefix. `Bytes.HasPrefixSplits` gives its meaning. |
| Bytes.HasPrefixSplits | resource/env/resource.go:37 | A slice has a prefix exactly when it is that prefix followed by the rest of the slice. Any prefix followed by anything has that prefix. |
| Bytes.Join | resource/env/resource.go:45 | `bytes.Join` with a one-byte separator. No parts give nothing. Otherwise the result starts with the first part, and with more parts that part is followed by the separator and then the join of the rest. `Bytes.SplitJoin` is its inverse. |
| Bytes.SplitJoin | resource/env/resource.go:45 | If no part contains the separator, splitting the join at the separator gives back the parts. |
| Adapter.Lookup | resource/file/resource.go:104-111 | An empty extension gives the empty-extension error. An unregistered extension gives not-found, naming that extension. Success holds iff the extension is non-empty and registered; it yields the extension and the formatter stored under its lower-case form. |
| Adapter.Load | resource/file/resource.go:25-32 | A fetch error is returned with last-seen unchanged. Fetched bytes become last-seen whatever parsing returns, and the parse result is returned. |
| Adapter.Deliver | resource/file/resource.go:81-91 | Sends nothing iff the payload equals last-seen. Notifies iff the payload differs and parses, and then records the payload. A parse failure sends that error. Last-seen changes only on a notification. |
| Adapter.Poll | resource/file/resource.go:76-91 | A fetch error is sent with state unchanged. Fetched bytes go through `Deliver`. |
| Adapter.CheckContext | resource/file/resource.go:39-41 | Refuses iff the context is done, with the context's error. |
| Adapter.LoadSuppressesSamePayload | resource/file/resource.go:25-32 | After `Load` fetches bytes, delivering the same bytes sends nothing, even if `Load` failed to parse them. |
| Adapter.Run | resource/file/resource.go:66-91 | At most one send per payload; a payload can also send nothing. After a run, last-seen is the payload of the last notification, or the initial value if nothing was notified. |
| Adapter.RunPrefix | resource/file/resource.go:66-91 | A run over a prefix of the payloads sends what the full run sends first. |
| Adapter.NoDuplicateNotification | resource/file/resource.go:81-91 | Two notifications with none between them carry different payloads. The first notification differs from the payload recorded before the run. |
| File.New | resource/file/resource.go:103-117 | Fails with the file empty-extension error, or with not-found for the extension in any letter case. Otherwise it records the filename, the extension without its dot, and the formatter found. |
| File.Load | resource/file/resource.go:25-36 | A read error is returned with last-seen unchanged. Bytes read become last-seen before parsing, and the parse result is returned. |
| Adapter.PollDedups | resource/file/resource.go:76-91 | The fetch-then-deliver step, and delivery on its own, keep the invariant: a step that does not notify keeps last-seen, and one that notifies records a payload different from the one it started from. |
| Adapter.QuietStretch | resource/file/resource.go:66-96 | In a chain of invariant-keeping steps, last-seen does not move across steps that do not notify. |
| Adapter.ChainNeverRepeats | resource/file/resource.go:66-96 | In any chain of invariant-keeping steps, two notifications with none between them record different payloads. |
| Adapter.ChainFirstNotification | resource/file/resource.go:66-96 | In any chain of invariant-keeping steps, the first notification records a payload other than the one recorded before the chain. |
| File.ConcernsAsWritten | resource/file/resource.go:70-75 | The event filter as written: the cleaned event path equals the file name as given to `New`, and the change writes or creates. |
| File.UncleanNameIsNeverConcerned | resource/file/resource.go:70-72 | The filter as written (`File.ConcernsAsWritten`): if the file name is not in clean form and `Clean` is idempotent, no event is ever handled, not even one naming the file exactly. |
| File.WatchedFileIsConcerned | resource/file/resource.go:70-75 | The corrected filter (`File.Concerns`) accepts a write or create exactly when the event path and the file name clean to the same path. It accepts the file's own name. For a file name already in clean form it agrees with the filter as written. |
| File.OnEvent | resource/file/resource.go:66-96 | The loop turn as written. A change that `ConcernsAsWritten` rejects does nothing and ignores the read result. A relevant change is a poll step. A watcher error is forwarded. |
| File.OnEventIntended | resource/file/resource.go:66-96 | The loop turn as evidently intended (see Findings). A change is relevant when its path and the file name clean to the same path and it writes or creates. Otherwise it is the same step. |
| File.UncleanNameStepIsSilent | resource/file/resource.go:70-72 | As written, a file name not in clean form makes every change a silent step, whatever was read. As intended, a write under the file's own name is polled. The two steps agree for clean file names. |
| File.OnEventDedups | resource/file/resource.go:66-96 | Both loop turns keep the deduplication invariant, so `Adapter.ChainNeverRepeats` applies to the file watch. |
| File.OnEventOutcomes | resource/file/resource.go:76-84 | For a change the filter as written accepts: a read error is sent with last-seen kept, bytes equal to last-seen are dropped, and with nothing recorded the bytes are never dropped. |
| File.StartWatch | resource/file/resource.go:38-48 | A done context refuses with its error. Otherwise the watcher-setup error, if any, is returned. |
| Env.New | resource/env/resource.go:88-98 | Succeeds iff an `env` formatter is registered. It records the prefix and that formatter; otherwise it fails with not-found for `env`. |
| Env.Matching | resource/env/resource.go:35-40 | Keeps exactly the entries that start with the prefix, each as often as it occurs. The result is empty iff no entry matches. |
| Env.LoadEnv | resource/env/resource.go:34-46 | Fails iff no entry starts with the prefix, and then fails with the no-environment error. Otherwise the payload is the newline join of the sorted matching entries. |
| Env.LoadIgnoresOrder | resource/env/resource.go:44-45 | Two environments with the same entries in any order give the same payload or the same error. |
| Env.LoadSplitsBack | resource/env/resource.go:44-45 | If no matching entry contains a newline, splitting the payload at newlines gives the sorted matching entries. |
| Env.Load | resource/env/resource.go:25-31 | A `load` error is returned with last-seen unchanged. The payload becomes last-seen before parsing, and the parse result is returned. |
| Env.OnTick | resource/env/resource.go:65-81 | A failing `load` sends its error with state unchanged. Otherwise the payload goes through `Deliver`. |
| Env.TickIgnoresOrder | resource/env/resource.go:71-74 | A tick whose environment is only a reordering of the last loaded one sends nothing. |
| Env.OnTickDedups | resource/env/resource.go:66-81 | Every poll tick keeps the deduplication invariant, so `Adapter.ChainNeverRepeats` applies to the env poll. |
| Env.StartWatch | resource/env/resource.go:48-51 | Refuses iff the context is done, and then with the context's own error. |
| Nacos.New | resource/nacos/resource.go:94-110 | Fails with the dataId empty-extension error, or with not-found for the extension in any letter case. Otherwise it records the group, data id, extension and formatter. |
| Nacos.Load | resource/nacos/resource.go:27-45 | A fetch error is returned with last-seen unchanged. The content becomes last-seen before parsing, and the parse result is returned. |
| Nacos.Watch | resource/nacos/resource.go:47-71 | A done context returns its error without asking for a listener. Otherwise a listener is asked for and its error, if any, is returned. |
| Nacos.OnChange | resource/nacos/resource.go:54-67 | Content equal to last-seen does nothing. A parse failure sends the error with last-seen kept. A success notifies and records the content. |
| Nacos.OnChangeDedups | resource/nacos/resource.go:55-66 | Every callback keeps the deduplication invariant, so `Adapter.ChainNeverRepeats` applies to Nacos changes. |
| Nacos.OnChangeIgnoresRepeat | resource/nacos/resource.go:55-59 | After a notification, the same content again does nothing. |
| Consul.New | resource/consul/resource.go:99-114 | Fails with the key empty-extension error, or with not-found for the extension in any letter case. Otherwise it records the key, extension and formatter. |
| Consul.Load | resource/consul/resource.go:28-35 | A fetch error is returned with last-seen unchanged. The value becomes last-seen before parsing, and the parse result is returned. |
| Consul.Handle | resource/consul/resource.go:54-73 | No payload, or a payload that is not a KV pair, does nothing. A value equal to last-seen is dropped. A parse failure sends the error with last-seen kept. A success notifies and records the value. |
| Consul.HandleDedups | resource/consul/resource.go:55-73 | Every handler call keeps the deduplication invariant, whatever the payload, so `Adapter.ChainNeverRepeats` applies to Consul updates. |
| Consul.HandleIgnoresRepeat | resource/consul/resource.go:62-66 | After a notification, a pair with the same value, under any key, is dropped. |

## Left out

- Goroutines, channels, `select` loops, polling timers, fsnotify, the Consul watch plan, Nacos `ListenConfig`/`CancelListenConfig`, `os.ReadFile`, `os.Environ` and `fmt.Println`. They are I/O or concurrency. Only the single-step handlers are modelled, and what the I/O returns is an input.
- `sync.RWMutex` and `atomic.Value` are plain state. The registry is a value, and last-seen is threaded through the steps.
- Stop functions. `close(stopC)` panics when called twice, so nothing is claimed about stopping.
- The Consul logger side channel (resource/consul/resource.go:90-97), which sends logged errors to `errC`, is not modelled.
- The missing-key case of Consul `load`: the code dereferences a nil pair (resource/consul/resource.go:37-42). The same applies to a typed-nil `*api.KVPair` reaching the handler. A panic is not a clean error, so `Consul.Load` takes the fetched value as input.
- Consul `Watch`'s `watch.Parse` of its fixed parameters. It is library code that parses constant input.
- The concrete JSON, YAML, TOML and env formatters are not part of this model. A formatter is an arbitrary `Parse` function.
- The watch coordinator, config store and typed accessors live in generated code that is not part of this model. The CLI, the code generator and the registration-only imports are not part of this model either.
- Format.ToLower: lower-cases ASCII letters only. Go's `strings.ToLower` also lower-cases non-ASCII letters.
- Paths.Ext: treats only `/` as a separator, as on Unix.
- `filepath.Clean` in the file watch is a function parameter of `File.OnEvent` and `File.OnEventIntended`. Its path rules are not modelled; only its idempotence is assumed, in `File.UncleanNameIsNeverConcerned`.
- Node identity and aliasing are not modelled. Values are immutable trees compared by content, so the deep-copy isolation of `copyValue`, where no node is shared with the original, is not proved. A copy that returned the same nodes would have the same model.
- Numbers are reals rather than `float64`. Only equality is preserved, so NaN and negative zero are not modelled.
- A nil `*Struct` or `*ListValue` inside a value is modelled as an empty struct or list, as the nil-safe getters make it behave. A nil input to `Merge` is likewise an empty field map.
- A Go string and its `[]byte` conversion are the same byte sequence. Nacos content and environment entries are modelled directly as bytes.

## Findings

| source | as written | input that shows it | evidently intended | confidence | as-written member | corrected member |
|---|---|---|---|---|---|---|
| resource/file/resource.go:70 | The cleaned event path is compared with the file name exactly as it was given to `New`, and that name is never cleaned. | `New("./app.yaml", ...)`: `filepath.Clean` of any event path is in clean form, and "./app.yaml" is not (it cleans to "app.yaml"), so no change to the file is ever handled. | Compare both paths in clean form, as `File.OnEventIntended` does. | medium; not executed | File.UncleanNameIsNeverConcerned | File.WatchedFileIsConcerned |
