# easyconfig core, modelled in Dafny

easyconfig fills a Go configuration struct from an ordered list of sources:
- configuration files (JSON, YAML, TOML, dotenv, or a directory of one file per key);
- the process environment;
- the command line.

Each source either decodes a whole file into the struct, or builds a flat
`map[string]string` and hands it to `map2struct`. For every field,
`map2struct` derives the key the field is looked up under (`convertName`).
It then stores the text into the field: `setField` for one element,
`setSlice` for a slice. The loader runs every source in order, collects
their errors into one, and shows a help text when the single argument asks
for it.

This project covers the following, in one module per concern:

| module | file | covers |
|---|---|---|
| `Wrappers` | `wrappers.dfy` | option, error and result types |
| `GoStrings` | `gostrings.dfy` | the `strings` functions the package calls, ASCII case only |
| `GoStrconv` | `strconv.dfy` | `strconv.ParseInt`, `ParseUint` and `ParseBool` in base 10, with their clamping and error values, plus decimal formatting for round trips |
| `Schema` | `schema.dfy` | the struct as a list of fields (name, kind, tags) and a record of values |
| `Naming` | `naming.dfy` | `convertName` and the acronym rewrite |
| `NamingExamples` | `naming_examples.dfy` | concrete key derivations |
| `Coercion` | `coerce.dfy` | `setField` and `setSlice` |
| `Tokenize` | `tokenize.dfy` | the `KEY=value` split of `EnvSource` and the argument tokenizer of `FlagsSource` |
| `Applier` | `applier.dfy` | `setValue` and `map2struct` |
| `Errors` | `errors.dfy` | `errCollector` |
| `Loading` | `loader.dfy` | source dispatch, `FileSource`'s fallback chain, `NewLoader`, the help trigger and `Loader.Load` |
| `Fixtures` | `fixtures.dfy` | the slice fixture of the test suite |

Some behaviour is not in the package and is passed in from outside:
- The `strcase` functions and float parsing are function-valued fields of
  a `Library`.
- The operating system is a `World`, which holds:
  - `os.Args` and `os.Environ()`;
  - `os.Stat`;
  - the file decoders;
  - the dotenv and directory readers;
  - the order Go happens to iterate each map in.

Behaviour a reader might not expect, as the code has it:
- A flag tag override that already starts with "-" gets one more "-"
  (`main.go:453-455`). An override without a "-" is used as is, so no
  command-line key can ever reach that field
  (`Applier.FlagsNeverSetUndashedOverride`).
- `map2struct` trims the key, but tests the value for emptiness
  untrimmed (`main.go:390-391`).
- A number or boolean that fails to parse overwrites the field with what
  the parser returns: 0, false, or the bound of the width on overflow. The
  field's old value is not kept (`main.go:491-522`).
- The flag tokenizer clears the pending key only when it meets another
  dash argument. After `-k a b`, the key `-k` holds `b` (`main.go:361-372`).
- `setValue` passes the trimmed tag to `convertName` (`main.go:407`).
- `ErrIsDirectory` is declared but never returned (`main.go:88`).

## Model

| member | source | states |
|---|---|---|
| Naming.RewriteAcronymsSpec | main.go:437-441 | the acronym loop lower-cases only the first listed acronym that prefixes the name and keeps the rest; with no prefixing acronym the name is unchanged, because later acronyms can no longer match a lower-case start |
| Naming.RewriteKeepsTail | main.go:79 | with the package's acronym list, the rewrite keeps the name's length and changes nothing after the leading acronym |
| Naming.RewriteExample | main.go:79 | "HTTPSPort" becomes "httpsPort": HTTPS is listed before HTTP, so HTTP never fires |
| Naming.FirstAcronym | main.go:437-439 | the index found is the first acronym of the list that prefixes the name, and none before it does |
| Naming.ConvertName | main.go:428-470 | the separator is the tag's text after its first comma, else "," or ":" for env; an env key is the upper-cased override or screaming-snake name, with the normalised prefix put in front only when that name does not already start with it (a case-sensitive test made before upper-casing); dir keys are the override or the kebab name; a flag key without an override is "-" followed by the lower-camel form of the name after the acronym rewrite; a flag override gets one extra "-" exactly when it already starts with "-" |
| Naming.EnvKey | main.go:463-467 | an env key is upper-cased and starts with the upper-cased prefix; it is the upper-cased name alone when the prefix is empty or the name already starts with it, and the upper-cased prefix followed by the upper-cased name otherwise |
| Naming.EnvPrefixShape | main.go:459-462 | the normalised prefix is empty or ends in "_" or "-" |
| Naming.EnvPrefixIdempotent | main.go:459-462 | normalising a normalised prefix changes nothing |
| Naming.WithPrefixIdempotent | main.go:463-465 | a key that already begins with the prefix is not prefixed again |
| NamingExamples.EnvPrefixExample | main.go:458-467 | prefix "APP" and field PostgresUser give the key "APP_POSTGRES_USER" with separator ":" |
| NamingExamples.SliceTagExample | main_test.go:17 | the env tag "slice,:" under prefix "APP" gives the key "APP_SLICE" and separator ":" |
| NamingExamples.EnvPrefixIsCaseSensitive | main.go:463 | the prefix test is made before upper-casing: prefix "app" with tag "APP_X" gives "APP_APP_X" |
| GoStrconv.ParseUint | main.go:505-519 | the result never exceeds the width's maximum; a syntax error yields 0 and an overflow yields the maximum |
| GoStrconv.ParseUintMatchesSpec | main.go:505-519 | the digit scan agrees with the decimal value of the longest digit prefix, clamped, and with the error the whole string causes |
| GoStrconv.ParseInt | main.go:490-504 | the result lies in the width's signed range; a syntax error yields 0 and an overflow yields the minimum for a "-" sign and the maximum otherwise |
| GoStrconv.ParseIntMatchesSpec | main.go:490-504 | the sign handling, digit loop and cutoff tests agree with a whole-input reading: digits past the unsigned maximum give the bound on the sign's side whatever follows; otherwise any non-digit is a syntax error with 0; otherwise the signed value, clamped to its side's bound with a range error when the width cannot hold it |
| GoStrconv.ParseBool | main.go:520-522 | true exactly for the true literals; parsed exactly for the true or false literals; never a range error |
| GoStrconv.ParseFormatInt | main.go:490-504 | every integer of a width, written in decimal, parses back to itself |
| GoStrconv.ParseFormatUint | main.go:505-519 | every unsigned integer of a width, written in decimal, parses back to itself |
| GoStrconv.NonNumericParsesToZero | main.go:490-519 | a text not starting with a digit or sign is a syntax error with value 0 |
| GoStrconv.OverflowBeforeGarbage | main.go:508-510 | "256x" into a uint8 is a range error with value 255, not a syntax error |
| Coercion.SetField | main.go:483-531 | text is stored verbatim; a bool is true exactly for a true literal; a number that parses stores the value the whole-input reading of `ParseIntSpec` or `ParseUintSpec` gives, sign and leading zeros included; malformed numbers store 0; an out-of-range unsigned number stores the width's maximum, a signed one the minimum when it starts with "-" and the maximum otherwise; floats use the float parser; the value always fits the kind |
| Coercion.SetFieldFormatInt | main.go:490-504 | an integer field set from the decimal text of any in-range integer holds that integer |
| Coercion.SetFieldFormatUint | main.go:505-519 | an unsigned field set from the decimal text of any in-range value holds that value |
| Coercion.SetFieldMalformedIsZero | main.go:490-519 | a value that does not start like a number overwrites a numeric field with 0 |
| Coercion.SliceSeparator | main.go:473-475 | an empty separator falls back to ":", any other is kept |
| Coercion.AppendParts | main.go:477-481 | the loop appends one converted element per part to the existing elements |
| Coercion.SetSlice | main.go:472-481 | the old elements stay as a prefix, and element j after them is part j of the split value, set through setField |
| Coercion.SetSliceConforms | main.go:478-480 | appended elements fit the slice's element kind |
| Coercion.SetSliceJoinText | main.go:477 | texts joined by a one-character separator none of them contains load back as exactly those texts |
| Coercion.SetSliceJoinInts | main.go:473-481 | integers written in decimal and joined with ":" load back as the same integers when no separator is named |
| Coercion.SetSliceAccumulates | main.go:480 | setting a slice twice appends both batches, in order |
| Coercion.Store | main.go:417-423 | a slice field gets setSlice with the field's separator; another handled kind gets setField; an unhandled kind keeps its value |
| Fixtures.EnvSliceFixture | main_test.go:197 | "a1:a2:a3:a4:a5" loads as the five texts, with separator ":" and with an empty one |
| Fixtures.FlagSliceFixture | main_test.go:246 | "a1,a2,a3,a4,a5" with separator "," loads as the five texts |
| Tokenize.EnvMap | main.go:327-333 | no key of the environment map contains "=" |
| Tokenize.EnvMapRender | main.go:328-333 | writing pairs as `key=value` and reading them back gives the map of the pairs, later pairs winning |
| Tokenize.EnvMapSkipsBareEntry | main.go:329 | an entry without "=" is ignored |
| Tokenize.EnvMapLastEntryWins | main.go:330-331 | only the first "=" splits: `k=a=b` gives k the value "a=b", and the last entry for a key wins |
| Tokenize.FlagMap | main.go:358-375 | args[0] is skipped and every key of the flag map starts with "-" |
| Tokenize.FlagRunAppend | main.go:361 | tokenizing two argument lists in turn is tokenizing their concatenation |
| Tokenize.FlagRunDropsLeadingValues | main.go:361-372 | from any state with no pending key, arguments that do not start with a dash change nothing, the map included |
| Tokenize.FlagRunRender | main.go:364-366 | `-k=v` arguments alone build the map of their pairs and leave no pending key |
| Tokenize.FlagPendingLastValueWins | main.go:367-371 | after a bare `-k`, each following value overwrites the one before and `-k` stays pending |
| Tokenize.FlagTrailingKeyWritesNothing | main.go:367-369 | a bare `-k` with nothing after it writes nothing |
| Tokenize.FlagMapRender | main_test.go:238-247 | a program name followed by `-k=v` arguments gives exactly the map of the pairs |
| Applier.SetValue | main.go:401-426 | each field is decided on its own: it is stored from the value when its trimmed tag is not "-" and its derived name equals the key (upper-cased for env), and otherwise kept |
| Applier.Map2Struct | main.go:388-399 | the record keeps its shape, and each field ends as exactly the entries that reach it, stored in iteration order |
| Applier.StoreEachNone | main.go:389-396 | a field that no entry reaches keeps its value |
| Applier.StoreEachSingle | main.go:389-396 | a field that exactly one entry reaches is stored from that entry's value |
| Applier.StoreEachLastScalar | main.go:389-396 | a scalar field ends with the value of the last entry that reaches it |
| Applier.Map2StructExcluded | main.go:407-410 | a field whose trimmed tag is "-" is never written |
| Applier.Map2StructUniqueMatch | main.go:389-393 | when one map entry reaches a field, the field's value does not depend on Go's map iteration order |
| Applier.Map2StructLastScalarWins | main.go:389-393 | a scalar field ends with the value of the last entry that reaches it, in iteration order |
| Applier.Map2StructFrame | main.go:388-399 | a field that no entry reaches keeps its value |
| Applier.EnvMatchIgnoresKeyCase | main.go:412-414 | env keys match whatever their letter case |
| Applier.TrimKeepsDash | main.go:390 | trimming a key that starts with "-" keeps the "-" |
| Applier.FlagsNeverSetUndashedOverride | main.go:451-456 | a field whose flag override has no leading "-" is never written by the flag source |
| Errors.NonNil | main.go:92-96 | the reference reading of collection: an error is kept exactly when some result is that error, and no more errors are kept than there are results |
| Errors.CollectAllContents | main.go:92-96 | the collector is its old errors followed by the non-nil results, in order and each once (as `NonNil` reads them from the front) |
| Errors.CollectAllAppend | main.go:133-135 | collecting two batches in turn is collecting them together |
| Errors.CollectAllEmpty | main.go:92-96 | the collector stays empty exactly when every result was nil |
| Errors.ErrorOf | main.go:98-108 | nil exactly when nothing was collected, otherwise one error whose text is the messages joined by newlines with a final newline |
| Errors.ErrorTextJoin | main.go:102-105 | each message is followed by "\n", in collection order |
| Errors.ErrorTextSplits | main.go:102-107 | when no message has a newline, splitting the text at newlines gives back every message and a final empty piece |
| Loading.ApplyMap | main.go:322 | map2struct never reports an error |
| Loading.EnvFileLoad | main.go:311-323 | a read or parse error is returned and leaves the record as it was |
| Loading.DirLoad | main.go:338-355 | a directory read error is returned and leaves the record as it was |
| Loading.ExtStart | main.go:248 | the dot found is the last dot of the last path element |
| Loading.Ext | main.go:248 | the extension is empty or a dot-led suffix of the path, with no further dot or slash |
| Loading.ExtOfDotted | main.go:248 | the extension of `name.ext` is `.ext` when ext has no dot or slash |
| Loading.Fallback | main.go:258-271 | the record keeps its shape, and the only error reported is "unknown file type" |
| Loading.FallbackFailsIffAllFail | main.go:259-271 | the chain fails exactly when all four attempts fail |
| Loading.FallbackStopsAtFirstSuccess | main.go:259-264 | a successful JSON attempt ends the chain with its result, and so does YAML after a failed JSON attempt |
| Loading.FileLoad | main.go:241-274 | a stat error is returned; a directory is loaded as a directory source; .json, .yaml/.yml, .env and .toml pick their decoder; any other extension goes through the fallback chain |
| Loading.FileJsonByName | main.go:250-251 | `name.json` is decoded as JSON alone |
| Loading.FileUpperJsonFallsBack | main.go:249-258 | the extension is matched case-sensitively, so `name.JSON` goes through the fallback chain |
| Loading.FileWithoutExtensionFallsBack | main.go:258 | a path without a dot goes through the fallback chain |
| Loading.LoadSource | main.go:240-375 | every source keeps the record's shape, and the environment and flag sources never fail |
| Loading.RunSources | main.go:133-135 | every source runs, the record keeps its shape, and one error slot is recorded per source |
| Loading.RunSourcesTrace | main.go:133-135 | source i's error is the one it returns on the record left by the sources before it, whatever earlier sources returned |
| Loading.ApplyMapFrame | main.go:388-397 | a map none of whose entries reaches a field leaves that field as it was |
| Loading.LoadSourceFrame | main.go:240-375 | an environment, flag, env-file or directory source whose map reaches no entry for a field, or whose file or directory cannot be read, leaves that field as it was |
| Loading.RunSourcesFrame | main.go:133-135 | a field that no source in the list can write keeps the value it had before the loop, whatever the sources did to other fields and whatever errors they returned |
| Loading.ApplyMapUniqueScalar | main.go:388-397 | a scalar field reached by exactly one key of the map ends with that key's value, whatever it held |
| Loading.EnvSourceLastWins | main.go:133-135 | a final environment source sets a scalar field that one environment key alone reaches to that key's value, whatever the sources before it did |
| Loading.FlagsSourceLastWins | main.go:133-135 | a final command-line source sets a scalar field that one argument key alone reaches to that key's value, whatever the sources before it did |
| Loading.NewLoader | main.go:110-123 | with no message the help text is the usage line; otherwise it is the messages joined by newlines; help is disabled exactly when the only message is the empty string |
| Loading.HelpIgnoresValue | main.go:128 | `-help=x` triggers help exactly as `-help` does |
| Loading.HelpIgnoresCase | main.go:128 | an upper-cased argument triggers help exactly as the original does |
| Loading.Load | main.go:127-137 | help is shown exactly when the trigger holds; otherwise the record is the one the loop over the sources leaves, and the error is built from the non-nil errors they returned, in order |
| Errors.ErrorOfCollected | main.go:92-96 | the error built from a list of results is nil exactly when every result was nil, and otherwise its text is that of the collected errors |
| Loading.LoadError | main.go:132-136 | Load reports an error exactly when some source returned one, and its text is those messages in source order, each ended by a newline |
| Loading.EnvAndFlagsNeverFail | main.go:326-375 | a loader made only of environment and flag sources never reports an error |

## Left out

- File and OS access are parameters of a `World`, never modelled: `os.Stat`,
  `getFile`'s path resolution, file reading, `os.Environ`, `os.Args`.
- The JSON, YAML and TOML decoders and the dotenv parser are parameters too.
  A decoder is any function from the old record to a new record and an
  error. The only assumption is that it keeps the record's shape.
- Go's map iteration order is a parameter: any order that visits each key
  once. Properties that depend on it are stated for every such order.
- The `strcase` conversions (`ToScreamingSnake`, `ToKebab`, `ToLowerCamel`)
  and the acronym configuration `NewLoader` gives `strcase` are part of the
  passed-in `Library`.
- Float parsing is part of the `Library`: `strconv.ParseFloat` is not modelled.
- `Loader.Help` prints text and `os.Exit(0)` ends the process. The model
  stops at `HelpShown`.
- A schema holds exported fields only. In Go, an unexported field not
  tagged "-" makes `setValue` panic at `Addr().Interface()`
  (`main.go:415`) before the `CanSet` test at `main.go:486` is reached.
  Such a field, a nil or non-pointer struct argument, and the resulting
  panics have no model.
- Field kinds `setField` does not handle (maps, structs, pointers and the
  rest) are `Other`. They keep their value.
- `int` and `uint` are 64 bits wide.
- `ToUpper` and `ToLower` map ASCII letters only. Go maps every Unicode
  letter.
- DirSource's size limit and per-file read errors (`main.go:345-352`)
  belong to the directory reader.
- Tokenize.FlagMap: requires a program name in the argument list; Go
  panics on an empty `os.Args`.
- Loading.Load: the help text's content is not stated, only whether it is
  shown.
- Loading.Ext: paths are modelled with "/" as the only separator, as on
  Unix. On Windows `filepath.Ext` also stops at a backslash, so `C:\a.b\cfg` has
  no extension there but ".b\cfg" here.
- `ErrIsDirectory` is never returned by the code, so it has no model.
- `Source` is a Go interface that users may implement. `Loading.Source` is
  a closed datatype of the package's eight sources; a user-defined source
  is not modelled.
- `strconv.ParseFloat` can yield NaN and the infinities ("NaN", "1e400").
  The `Library`'s float parser returns a `real`, which holds neither.
- `Acronims` is an exported package variable a program may change.
  `Naming.Acronyms` is a constant holding its initial list. The acronym
  loop itself (`Naming.RewriteAcronymsSpec`) is stated for any list of
  acronyms that begin with an upper-case ASCII letter.
- Go strings are byte strings, so invalid UTF-8 can reach the loader from
  the environment, the arguments or the files. Here a string is a sequence
  of Unicode code points, so invalid UTF-8 has no model.
- Loading.RunSources: its own contract states the record's shape and one
  error per source. What the loop does to the record is stated by other
  lemmas. `Loading.RunSourcesTrace` gives each source's error.
  `Loading.RunSourcesFrame` shows that a field no source can write keeps its
  value. `Loading.EnvSourceLastWins` and `Loading.FlagsSourceLastWins` show
  that a final source's value wins. No lemma gives the record in closed form
  for an arbitrary list that includes the opaque file decoders.
