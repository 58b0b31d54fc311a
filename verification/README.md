# phil-db in Dafny

A model of phil-db, a thin PHP wrapper around PDO. It covers the two
classes that make up the wrapper's logic:

- `PhilDb`:
  - the array constructor, which checks every key against the declared properties and every value against `empty(trim(...))`, stores the lower-cased values, and then requires the five connection fields;
  - the static `factory`, which guards the single instance slot and the driver choice and merges the driver into the configuration with `array_merge`;
  - `connect`, which opens at most one connection and maps driver error codes to messages;
  - `buildDsn`, which builds the data source name;
  - `prepare`, which records the last statement.
- `PhilDbConfig`: the five-parameter value object. It trims and lower-cases every argument and reports all the missing ones in a single message.

PHP objects are modelled as immutable values. Every operation that changes
state returns a `Step(state, result)`, where `result` is either the returned
value or the message of the `PhilDbException` thrown. `PhilDb::$instance`
is an `Option<Db>` that goes in and comes back out. PDO is the one
collaborator outside the model, so it is given as parameters:

- the drivers PDO reports as available;
- a function `open(dsn, username, password)` standing for `new PDO(...)`;
- a function `run(sql, params)` standing for prepare, bind and execute.

The PHP runtime functions the code relies on are modelled in module `Php`:

- `trim` with its default character list;
- `empty` on strings, which is true only for `""` and `"0"`;
- `strtolower`, which changes ASCII letters only;
- arrays with string keys as ordered pairs;
- `array_merge`.

Modules:
- `Results` (`results.dfy`): the shared `Option`, `Result` and `Step` types.
- `Php` (`php.dfy`): the PHP runtime functions listed above.
- `Dsn` (`dsn.dfy`): `buildDsn`, and how a DSN splits back into its `;`-separated segments.
- `PhilDb` (`phildb.dfy`): the constructor, `factory`, `connect` and `prepare`.
- `PhilDbProperties` (`phildb_properties.dfy`): the lemmas about `PhilDb`.
- `PhilDbConfig` (`phildb_config.dfy`): the config class and the lemmas about it.

Behaviour of the code worth knowing before reading the lemmas:

- **Driver check.**
  - The gate at `src/PhilDb.php:126-131` reads only the `$driver` argument, which defaults to `mysql`.
  - The configuration's own `driver` entry then wins in `array_merge`. So a configuration naming an unsupported driver still gets an instance, and that instance uses the unsupported driver (`FactoryGateBypassedByConfigDriver`).
  - The availability check comes before the support check.
- **Accepted keys.**
  - `property_exists` admits all ten declared properties, including `connection`, `options`, `statement`, `instance` and `supportedDrivers`.
  - A `connection` entry makes every later `connect` fail (`ConnectAfterConstruct`).
- **Writes before the PDO calls.**
  - `options` is written before the PDO call that may throw, so a failed `connect` keeps it (`ConnectRetry`).
  - `statement` is written before execution, so a `prepare` whose execution throws keeps the new statement (`PrepareReplacesStatementOnly`).
- **Factory argument.** `factory` takes an array and a driver name.
- **Connection state.** The untyped property `$connection` is modelled as `Connection`: unset, a string taken from the configuration array, or an open PDO handle. The guard `$this->connection != false` (`src/PhilDb.php:147`) is `Connected`, which is true of a string unless it is `""` or `"0"`. A string from the array has already passed `empty(trim(...))`, so it always counts as connected.
- **Config fields.** The fields of `PhilDbConfig` are public, and the tests overwrite them after construction. The model's `Config` is a datatype with no invariant, so an update such as `c.(dbname := "bad-dbname")` is accepted unchecked, just as a property write skips the constructor's validation.

## Model

| member | source | states |
|---|---|---|
| PhilDb.Assign | src/PhilDb.php:83-94 | the first pass over the configuration succeeds exactly when no entry has an undeclared key or a value that is empty after trim |
| PhilDb.FirstUnset | src/PhilDb.php:97-102 | the second pass finds nothing exactly when every required field is set and not PHP-empty; whatever it reports is one of the required names |
| PhilDb.AssignStores | src/PhilDb.php:83-94 | after an accepted first pass, each key of the array holds the lower-cased value given for it and other properties keep their values |
| PhilDbProperties.AssignRejects | src/PhilDb.php:83-91 | the first pass throws for the first rejected entry in array order, with the message chosen by the key test first |
| PhilDbProperties.FirstUnsetIsFirst | src/PhilDb.php:97-102 | the second pass reports the first unset field in check order |
| PhilDb.SetExactlyWhenGiven | src/PhilDb.php:83-102 | after an accepted first pass, a field is set and truthy exactly when the array has a key for it |
| PhilDbProperties.ConstructRejects | src/PhilDb.php:83-91 | the constructor throws "Parameter 'K' does not exist" for an undeclared key or "Parameter 'K' does not have a value" for a blank value, for the first such entry |
| PhilDbProperties.ConstructMissing | src/PhilDb.php:96-102 | when all entries are accepted, the constructor throws "Parameter 'X' was not given or set" for the first required field missing from the array, in the order hostname, dbname, username, password, driver |
| PhilDbProperties.ConstructStores | src/PhilDb.php:81-103 | an accepted configuration naming all five fields constructs an object holding their lower-cased (untrimmed) values, the connection set only by a `connection` entry, and no options or statement |
| PhilDb.RequiredSetIffGiven | src/PhilDb.php:96-102 | after an accepted first pass, the second pass finds nothing exactly when the array names all five required fields |
| PhilDb.Construct | src/PhilDb.php:81-103 | `new PhilDb($config)` succeeds if and only if every entry is accepted and all five required fields are given |
| PhilDbProperties.ConstructedConnection | src/PhilDb.php:83-93 | a constructed object never holds an open connection, and counts as connected exactly when the array assigned `connection` |
| PhilDbProperties.PlainEntry | src/PhilDb.php:85-93 | a declared key with a non-blank lower-case value free of surrounding whitespace is accepted and stored unchanged |
| PhilDbProperties.ConstructGoodConfig | tests/PhilDbConstructTest.php:21-40 | the configuration of the good-config test constructs an object holding exactly the given values |
| PhilDb.Factory | src/PhilDb.php:115-135 | an occupied slot throws "Instance already exists"; an unavailable lower-cased driver throws "Invalid database driver"; an available but unsupported one throws "Unsupported database driver"; a success fills the slot with the returned instance; a failure leaves the slot unchanged |
| PhilDbProperties.FactoryConstructs | src/PhilDb.php:133 | past the slot and driver guards, `factory` constructs from the array with `driver` first, holding the configuration's own driver if it has one and the argument otherwise, then the rest of the configuration in order |
| PhilDbProperties.MergedAccepted | src/PhilDb.php:133 | the merged array passes the first pass exactly when the configuration does |
| PhilDbProperties.MergedFind | src/PhilDb.php:133 | merging changes no key other than `driver`, and the merged `driver` is the configuration's own when present |
| PhilDbProperties.FactoryOutcome | src/PhilDb.php:115-135 | with a free slot and an available, supported driver argument, `factory` succeeds exactly when the configuration is accepted and names hostname, dbname, username and password; the instance holds their values and the configuration's driver wins over the argument |
| PhilDbProperties.FactoryGateBypassedByConfigDriver | src/PhilDb.php:126-133 | a configuration whose own driver is unsupported still gets an instance through a supported argument, and that instance uses the unsupported driver |
| PhilDbProperties.FactoryBlankDriverFirst | src/PhilDb.php:133 | a blank `driver` in the configuration is reported before any other problem, wherever it sits in the array |
| PhilDbProperties.FactoryTwice | src/PhilDb.php:117-119 | a second `factory` call after a success throws "Instance already exists" and keeps the first instance |
| PhilDb.FactoryDefault | src/PhilDb.php:115-133 | `factory($config)` is `factory($config, "mysql")`: it throws "Instance already exists" when the slot is taken and "Invalid database driver" when `mysql` is unavailable, and otherwise succeeds exactly when the configuration with `mysql` merged in constructs; a success fills the slot and a failure leaves it |
| PhilDbProperties.FactoryDefaultOutcome | src/PhilDb.php:115-135 | with the driver argument left at its default and no `driver` entry, `factory` throws "Invalid database driver" exactly when `mysql` is unavailable; otherwise it succeeds exactly when the configuration is accepted and names hostname, dbname, username and password, and the instance uses `mysql` |
| Dsn.OptionsText | src/PhilDb.php:179-181 | the options text is empty exactly when there are no options, and otherwise ends in `;` |
| Dsn.BuildDsn | src/PhilDb.php:175-183 | the DSN is never empty and always ends in `;` |
| Dsn.OptionsTextConcat | src/PhilDb.php:179-181 | the options serialise entry by entry: the text of a concatenation is the concatenation of the texts |
| Dsn.BuildDsnAppend | src/PhilDb.php:179-181 | each further option appends exactly its own `key=value;` to the DSN |
| Dsn.DsnSegments | src/PhilDb.php:175-183 | when no part contains `;`, splitting the DSN on `;` gives back the driver and database segment, the host segment, and one `key=value` per option in order |
| Dsn.OptionValueInjectsSegment | src/PhilDb.php:179-181 | option values are not escaped: a value `a;b` reaches the driver as two segments, so `b` becomes a setting of its own |
| PhilDb.Connect | src/PhilDb.php:145-166 | a connected object throws "Connection already exists" and changes nothing; otherwise the options are recorded, the driver is asked with the built DSN and the credentials, a success stores the connection, a refusal keeps it and maps code 2002 to the host message, 1049 to the database message and any other code to "Connetion failed: " plus the driver's message; no other field changes |
| PhilDbProperties.ConnectTwice | src/PhilDb.php:147-153 | a second `connect` after a successful one throws "Connection already exists" and changes nothing |
| PhilDbProperties.ConnectRetry | src/PhilDb.php:147-163 | a refused `connect` keeps the options it recorded, yet a retry behaves exactly like a first attempt |
| PhilDbProperties.ConnectDbnameNotFound | src/PhilDb.php:157-160 | a refusal with code 1049 for database `baddatabase` throws "Database 'baddatabase' not found" and leaves the object unconnected |
| PhilDbProperties.ConnectAfterConstruct | src/PhilDb.php:147-150 | an object built from an array with a `connection` entry always fails to connect; one built without it is unconnected, and `connect` records the options and goes on to the driver |
| PhilDb.ConnectError | src/PhilDb.php:157-162 | code 2002 gives "Failed connecting to host 'H'", code 1049 gives "Database 'D' not found", and any other code gives "Connetion failed: " followed by the driver's message |
| PhilDbProperties.ConnectErrorUsesDriverMessage | src/PhilDb.php:157-162 | the driver's own message reaches the caller only for codes other than 2002 and 1049, and then different messages stay different; for those two codes the message does not depend on what the driver said |
| PhilDb.Prepare | src/PhilDb.php:193-206 | a statement that fails to compile throws "Prepare Error: " plus the message and changes nothing; one that compiles replaces the last statement; the call returns it exactly when execution succeeds, and otherwise throws with the prefix |
| PhilDbProperties.PrepareReplacesStatementOnly | src/PhilDb.php:196-204 | `prepare` changes nothing but the last statement, which changes only when compilation succeeded, even if execution then throws; every error carries the "Prepare Error: " prefix |
| Php.TrimLeftSpec | src/PhilDb.php:89 | the left half of `trim` drops the longest prefix made of space, tab, LF, CR, NUL and VT, and keeps the rest unchanged |
| Php.TrimRightSpec | src/PhilDb.php:89 | the right half of `trim` drops the longest suffix made of space, tab, LF, CR, NUL and VT, and keeps the rest unchanged |
| Php.BlankIff | src/PhilDb.php:89 | `empty(trim($s))` holds exactly when `$s` is made only of those six characters, or is `"0"` once they are stripped |
| Php.Lower | src/PhilDb.php:93 | `strtolower` keeps the length and maps each character separately |
| Php.TrimIdempotent | src/PhilDbConfig.php:62 | trimming twice is trimming once |
| Php.TrimLowerCommute | src/PhilDbConfig.php:62 | trimming and lower-casing commute |
| Php.BlankNormalised | src/PhilDbConfig.php:59-62 | a value is blank exactly when its trimmed, lower-cased form is |
| Php.Find | src/PhilDb.php:83-93 | an array has a value for a key exactly when the key occurs in it |
| Php.FindIsEntry | src/PhilDb.php:83-93 | the value found for a key is the value of its entry |
| Php.Put | src/PhilDb.php:133 | assigning a key adds exactly that key |
| Php.PutNewKeyAppends | src/PhilDb.php:133 | assigning a new key appends the entry at the end |
| Php.Merge | src/PhilDb.php:133 | `array_merge` with string keys yields exactly the keys of both arrays |
| Php.Without | src/PhilDb.php:133 | removing a key removes exactly that key |
| Php.MergeAfterHead | src/PhilDb.php:133 | merging a unique-keyed array onto one entry plus other keys overwrites that entry in place and appends the rest in order |
| Php.MergeOntoSingle | src/PhilDb.php:133 | `array_merge([k => x], b)` puts `k` first, holding `b`'s value if `b` has one and `x` otherwise, followed by the rest of `b` in order |
| PhilDbConfig.Failing | src/PhilDbConfig.php:57-61 | the list of missing names is empty exactly when no argument is blank |
| PhilDbConfig.QuoteAll | src/PhilDbConfig.php:60 | each reported name is wrapped in single quotes, in order |
| PhilDbConfig.NewConfig | src/PhilDbConfig.php:51-69 | the constructor succeeds exactly when no argument is blank after trim; otherwise it throws "One or more required config variables missing: " followed by the quoted blank names, joined by ", " in parameter order |
| PhilDbConfig.NewConfigWithDefaults | src/PhilDbConfig.php:51 | with host and driver left out, the constructor fails only for a blank dbname, username or password, and a success stores `localhost` and `mysql` |
| PhilDbConfig.DefaultsStoredUnchanged | src/PhilDbConfig.php:51 | the default host and driver are not blank and are stored unchanged |
| PhilDbConfig.HostAndDriverAccepted | src/PhilDbConfig.php:51-61 | when host and driver are not blank, only dbname, username and password can be reported |
| PhilDbConfig.NormalIsFixed | src/PhilDbConfig.php:62 | a lower-case value with no surrounding whitespace is stored as given |
| PhilDbConfig.NormaliseAccepted | src/PhilDbConfig.php:59-62 | the stored form of an accepted argument is non-blank, has no surrounding whitespace and no upper-case letters, and normalising it again changes nothing |
| PhilDbConfig.NewConfigStores | src/PhilDbConfig.php:57-63 | on success every field holds its argument trimmed and lower-cased, in normal form |
| PhilDbConfig.NewConfigIdempotent | src/PhilDbConfig.php:51-69 | building a config again from the fields of an accepted one gives back the same config |
| PhilDbConfig.FailingConcat | src/PhilDbConfig.php:57-61 | the missing names of a split parameter list are those of the first part followed by those of the second |
| PhilDbConfig.FailingExactly | src/PhilDbConfig.php:57-61 | with distinct names, a name is reported if and only if its argument is blank |
| PhilDbConfig.FailingOnlyNames | src/PhilDbConfig.php:57-61 | only parameter names are ever reported |
| PhilDbConfig.Implode | src/PhilDbConfig.php:66 | `implode` of no items is empty, of one item is that item, and otherwise starts with the first item |
| PhilDbConfig.ImplodeConcat | src/PhilDbConfig.php:66 | `implode` of two non-empty lists joins their texts with the separator |
| PhilDbConfig.OnlyPasswordMissing | src/PhilDbConfig.php:57-68 | when only the password is blank the message names `'password'` alone |
| PhilDbConfig.AllMissing | src/PhilDbConfig.php:57-68 | when every argument is blank the message lists all five names in parameter order |
| PhilDbConfig.AllNamesMessage | src/PhilDbConfig.php:64-66 | the message for all five parameters lists them quoted, separated by ", " |
| PhilDbConfig.TestBaseConfig | tests/PhilDbTestBase.php:19 | `new PhilDbConfig("mysql", "phildb", "phildbpass")`, the configuration the connection tests start from, is accepted and stores its values unchanged with host `localhost` and driver `mysql` |

## Left out

- `PDO::getAvailableDrivers`, `new PDO`, `setAttribute`, and PDO's `prepare`, `bindValue` and `execute` are not modelled. They appear as parameters: the list of available drivers, `open`, and `run`. Setting the error mode has no observable effect in the model beyond `prepare` reporting failures as exceptions.
- Connections and statements are opaque handles (`nat`). Result rows and fetching are not modelled.
- `executeLast` is not part of the source, so it is not modelled.
- Values that are not strings are not modelled. This covers `null` (the `isset` test), integers and arrays given as configuration values, PDO error codes that are not integers, and `null` arguments to `PhilDbConfig`.
- A PHP array has each key once. `Pairs` can hold a repeated key, and the model's behaviour on such a sequence has no counterpart in the source. Lemmas that need distinct keys require `UniqueKeys`; the rest hold for every sequence, but say nothing about the source when a key repeats.
- `strtolower` is modelled as changing ASCII letters only, which is its behaviour from PHP 8.2. Before 8.2 it followed the current locale, and that locale-dependent lower-casing is not modelled.
- Integer array keys are not modelled, and neither is the renumbering `array_merge` applies to them. Configuration keys are strings.
- `in_array` is modelled as exact string membership. Its loose comparison between numeric strings is not modelled.
- Values given for `options`, `statement`, `instance` and `supportedDrivers` are accepted but not stored. `connect` and `prepare` overwrite `options` and `statement` before reading them. The other two land on the static properties' instance-level shadows, which nothing in the core reads.
- The static slot is modelled as a value. Object aliasing between the slot and the returned instance is not modelled.
- PhilDb.Prepare: requires an open PDO connection. On `false` or a string connection the source fails with a PHP fatal error rather than a `PhilDbException`, and that is not modelled.
- `PhilDbConfig` reads its parameter list through `ReflectionMethod`. That list is modelled as the fixed sequence `ParameterNames`.
- `PhilDbConfig` assigns `driver` as a dynamic property. It is modelled as an ordinary field.
- The PHP tests are not modelled. Where they pass a `PhilDbConfig` object to `factory`, which takes an array, they no longer match the source. Only the good-config construction test, the unknown-database connect test and the test base's `PhilDbConfig` appear, as example lemmas.
