# Migration tool core, modelled in Dafny

This project models the core of a small PostgreSQL migration tool written
in TypeScript. Migrations live as timestamp-prefixed folders in a
migrations directory, each holding a forward script and a rollback script.
A `migrations` ledger table records which folders have been applied. An
interactive menu creates new folders, runs one forward or rollback script,
or runs every pending migration. After a run it regenerates one TypeScript
`enum` file per PostgreSQL enum type. The database settings come from a
`key=value` file.

The model is pure functions over immutable values, plus two methods for the
run-all loop:

- `Text` (`text.dfy`) holds the pieces of JavaScript the core relies on:
  - the regular-expression classes `\s` and `\w`;
  - `split` with a one-character separator, and `join`;
  - `slice(0, n)`;
  - `Number()` applied to a string, and number-to-string printing;
  - ASCII `toUpperCase`.
- `ArraySort` (`array_sort.dfy`) is `Array.prototype.sort` with a compare
  function. It is a stable insertion sort. It is proved to be:
  - a permutation of its input;
  - sorted and stable when the compare function is consistent;
  - the only sorted, stable arrangement, so no particular engine algorithm
    is assumed.
- `Migrations` (`migrations.dfy`) holds:
  - the folder ordering of `readMigrations`;
  - `filterMigrations` against the ledger names;
  - `getFileConfig`;
  - the folder name built by `createMigrationFile`;
  - the run-all loop.
- `EnumCodegen` (`enum_codegen.dfy`) holds:
  - the grouping of `getEnums` into an insertion-ordered `Map`;
  - the type names, member keys and file text of `writeEnumsToFiles`.
- `ConfigReader` (`config_reader.dfy`) is `readConfig`. It folds the line
  handler over the file's lines, then runs the close handler. A promise
  settles once, so the first rejection stands.
- `Wrappers` (`wrappers.dfy`) defines `Option` and `Result`.

Inputs the core receives from outside are parameters:

- the directory listing;
- the ledger rows;
- the catalogue rows of the enum query;
- the configuration file's lines;
- the clock reading;
- the outcome of each script run (`step(k)` is what the k-th `runMigration`
  call does);
- the configuration constants for the migrations folder and the two script
  names (`StoreLayout`).

### Behaviour of the code worth knowing

- **Short timestamp prefixes.** The sort key is `Number(name.slice(0, 10))`.
  For `100-a` and `50-b` that is `NaN`, and the comparator returns 0
  whenever a `NaN` is involved. So the listing `100-a`, `50-b`,
  `9999999999-c` keeps its order (`ShortPrefixListing`). Folders the tool
  creates between 2001-09-09 and 2286-11-20 have ten-digit timestamps, and
  those are ordered correctly (`NewMigrationNamesOrdered`).
- **Names without a numeric prefix.** These raise no error: such a name
  compares equal to every other name.
- **Missing settings.** Missing settings are not detected. `readConfig`
  rejects only three things:
  - a line with an empty key or an empty or missing value. The key is
    the text before the first `=` and the value is the text up to the
    second `=`, so `a=b=c` is accepted with value `b`;
  - a port that is not a number;
  - a key outside the five other than `__proto__`. Such a key adds a
    property, so `close` finds more than five keys. Assigning a string to
    `__proto__` adds no property, so that line changes nothing.

  An empty file resolves with empty strings, no password and port 0
  (`EmptyFileGivesDefaults`).
- **A throwing step in run-all.** An exception from a step leaves the whole
  menu loop: the client is closed and the tool ends. The model reports the
  halt and does not regenerate the enum files.

## Model

| member | source | states |
|---|---|---|
| `Text.NumberOfDecimalString` | src/database-management.ts:75-76 | printing a whole number and reading it back with `Number` gives the number back |
| `Text.DecimalStringLength` | src/database-management.ts:75 | a number in `[10^(k-1), 10^k)` prints with exactly k digits |
| `Text.JoinSplit` | src/lib/configReader.ts:30 | `split` on a one-character separator loses nothing: joining its pieces with that separator gives the original text back |
| `Text.SplitJoin` | src/database-management.ts:207-210 | `split` undoes `join` with a one-character separator when no piece contains that separator |
| `Text.SplitAtFirst` | src/lib/configReader.ts:30 | `split` on a separator yields the text before its first occurrence, followed by the split of the rest |
| `ArraySort.Sort` | src/database-management.ts:99 | sorting returns a permutation of its input, whatever the compare function |
| `ArraySort.SortSorted` | src/database-management.ts:99-110 | with a consistent compare function the result is in non-decreasing compare order |
| `ArraySort.SortStable` | src/database-management.ts:99-110 | elements that compare equal keep their relative order |
| `ArraySort.SortUnique` | src/database-management.ts:99-110 | any permutation that is sorted and keeps tied elements in input order is the sort's result |
| `ArraySort.DefaultCompareConsistent` | src/database-management.ts:212 | the default string comparison is antisymmetric and transitive, and returns 0 only on equal strings |
| `ArraySort.LessThanTrichotomy` | src/database-management.ts:212 | of two different strings exactly one is less than the other, and none is less than itself |
| `ArraySort.LessThanTransitive` | src/database-management.ts:212 | the lexicographic order of strings is transitive |
| `ArraySort.DefaultSortOrdered` | src/database-management.ts:212 | `sort()` without a compare function gives the strings in ascending order, each as often as it occurs |
| `Migrations.CompareFolders` | src/database-management.ts:99-110 | the comparator returns only 1, -1 or 0; it returns 0 exactly when a key is `NaN` or both keys are equal, and a negative value exactly when both keys are numbers and the first is smaller |
| `Migrations.CompareFoldersAntisymmetric` | src/database-management.ts:99-110 | swapping the two names negates the comparator's result |
| `Migrations.CompareFoldersConsistent` | src/database-management.ts:99-110 | on names whose keys are all numbers the comparator is a consistent comparison |
| `Migrations.ReadMigrations` | src/database-management.ts:96-112 | the sorted listing holds exactly the listed folder names |
| `Migrations.ReadMigrationsOrdered` | src/database-management.ts:98-112 | when all keys are numbers, the result ascends by timestamp key, and names with equal keys keep their listing order |
| `Migrations.ReadMigrationsUnique` | src/database-management.ts:98-112 | any arrangement that is ascending by key, stable for equal keys and a permutation of the listing equals the result |
| `Migrations.NaNKeysKeepListingOrder` | src/database-management.ts:100-109 | when no two names both have numeric keys, the listing is returned unchanged |
| `Migrations.ShortPrefixListing` | src/database-management.ts:100-109 | the listing `100-a`, `50-b`, `9999999999-c` is not put in numeric order |
| `Migrations.FilterMigrations` | src/database-management.ts:148-158 | the result is a subsequence of the listing; a name is kept, as often as it is listed, exactly when it is non-empty and its ledger membership matches the direction (absent for forward, present for rollback) |
| `Migrations.FilterPartition` | src/database-management.ts:148-158 | the forward and rollback selections are disjoint; together they cover every non-empty listed name with its multiplicity; neither holds a ledger name that has no folder |
| `Migrations.PendingContents` | src/database-management.ts:236-263 | the names the run branches offer are the listed folders absent from (forward) or present in (rollback) the ledger, each as often as listed |
| `Migrations.GetFileConfig` | src/database-management.ts:140-146 | the file config keeps the folder name and the migrations directory; it picks the forward script exactly for a forward run when the two script names differ |
| `Migrations.Slug` | src/database-management.ts:76 | replacing whitespace runs by `-` leaves no whitespace character |
| `Migrations.SlugWithoutSpaces` | src/database-management.ts:76 | a description without whitespace is kept as it is |
| `Migrations.SlugOfSpaceRun` | src/database-management.ts:76 | a non-empty run consisting only of whitespace becomes a single `-` |
| `Migrations.SlugAroundNonSpace` | src/database-management.ts:76 | the replacement works independently on the two sides of a non-whitespace character |
| `Migrations.NewMigrationName` | src/database-management.ts:75-76 | a new folder name contains no whitespace |
| `Migrations.NewMigrationNameKey` | src/database-management.ts:75-76 | a folder created between 2001-09-09 and 2286-11-20 has as its sort key the whole seconds of its creation time |
| `Migrations.NewMigrationNamesOrdered` | src/database-management.ts:75-76 | folders created in successive seconds of that range sort in creation order, and folders from the same second tie |
| `Migrations.RunPending` | src/database-management.ts:264-266 | the loop runs a prefix of the pending names; it completes exactly when every step returns; on a throw it reports the names applied before it and the failing name and cause |
| `Migrations.RunAll` | src/database-management.ts:262-268 | run-all attempts only listed folders absent from the ledger, in pending order; a halted run stops at the first throwing step, names that folder and carries its cause, after every earlier step returned; it regenerates the enum files exactly when every step returned; with nothing pending it completes having run nothing |
| `EnumCodegen.Set` | src/database-management.ts:183 | `Map.set` keeps keys distinct and changes only the entry for its key; existing keys keep their places, and a new key is added at the end |
| `EnumCodegen.GetEnums` | src/database-management.ts:179-186 | the map's keys are the distinct type names in order of first appearance; each entry holds that type's labels in row order |
| `EnumCodegen.GetEnumsNonEmpty` | src/database-management.ts:180-184 | every type name occurring in the rows is a key of the map, with at least one label |
| `EnumCodegen.SchemaIgnored` | src/database-management.ts:161-184 | rows that differ only in their schema give the same map, so same-named types of two schemas merge |
| `EnumCodegen.EnumTypeNameScan` | src/database-management.ts:207-210 | the type name contains no `_` and equals a single left-to-right scan that capitalises the letter after each `_` |
| `EnumCodegen.EnumTypeNameOfTwoWords` | src/database-management.ts:207-210 | a key of two `_`-separated words becomes the two words capitalised and concatenated |
| `EnumCodegen.MemberKey` | src/database-management.ts:214 | a member key consists only of `A-Z`, `0-9` and `_` |
| `EnumCodegen.MemberKeyByChar` | src/database-management.ts:214 | the three replacements equal a per-character rule: whitespace becomes `_`, a word character is upper-cased, anything else is dropped |
| `EnumCodegen.MemberKeyOfKey` | src/database-management.ts:214 | a label already made of `A-Z`, `0-9` and `_` is its own key |
| `EnumCodegen.MemberKeyIdempotent` | src/database-management.ts:214 | computing the key of a key changes nothing |
| `EnumCodegen.SortedValuesOrdered` | src/database-management.ts:212 | the labels are written in ascending order, each as often as it occurs |
| `EnumCodegen.EnumContentLines` | src/database-management.ts:212-217 | split into lines, an enum file is the `export enum` header, then one indented `KEY = "label",` line per label in sorted order, then `}` and a final newline |
| `EnumCodegen.RegeneratedFiles` | src/database-management.ts:203-222 | regeneration writes one file per distinct type name, in order of first appearance, named after the type and holding that type's labels |
| `ConfigReader.SetConfig` | src/lib/configReader.ts:12-14 | after the assignment the property reads back the new value; every other property reads as before; a key is added unless it is `__proto__` |
| `ConfigReader.KeyCountFive` | src/lib/configReader.ts:49 | the object has exactly five keys exactly when no line added a key besides the five fields |
| `ConfigReader.LineParts` | src/lib/configReader.ts:30 | the key is the text before the first `=`; the value is the text between the first and second `=`, and is missing without an `=` |
| `ConfigReader.OnLine` | src/lib/configReader.ts:29-46 | a line event keeps an earlier rejection, and otherwise rejects exactly with that line's own error |
| `ConfigReader.OnLineEffect` | src/lib/configReader.ts:29-46 | a line that assigns sets its field, with the port converted by `Number` and stored even when `NaN`; an unknown key adds a property; nothing else changes |
| `ConfigReader.OnClose` | src/lib/configReader.ts:48-54 | close keeps an earlier rejection; otherwise it resolves with the fields exactly when no extra key was added, and rejects with the incomplete-configuration error when one was |
| `ConfigReader.FeedFields` | src/lib/configReader.ts:29-46 | after all lines, each field holds the value of the last line assigning it, or its earlier value |
| `ConfigReader.FeedAddedKeys` | src/lib/configReader.ts:29-46 | the extra properties are exactly the unknown keys some line assigned |
| `ConfigReader.FeedRejected` | src/lib/configReader.ts:29-46 | the promise is rejected by the first offending line, and a rejection already made is never replaced |
| `ConfigReader.ReadConfigOutcome` | src/lib/configReader.ts:16-56 | `readConfig` rejects with the first offending line's error; failing that, with the incomplete-configuration error if an unknown key appeared; otherwise it resolves with the defaults overwritten by each field's last assignment |
| `ConfigReader.EmptyFileGivesDefaults` | src/lib/configReader.ts:18-24 | an empty file resolves with empty strings, no password and port 0 |
| `ConfigReader.FirstErrorWins` | src/lib/configReader.ts:36-44 | the rejection carries the error of the first offending line |
| `ConfigReader.ReadConfigSucceedsIff` | src/lib/configReader.ts:29-54 | `readConfig` resolves exactly when every line is a `key=value` line with a numeric port and a key among the five or `__proto__` |
| `ConfigReader.LastValueIsLast` | src/lib/configReader.ts:39-41 | the value a field ends with is the one on the last line assigning it |
| `ConfigReader.ResolvedPortIsNumber` | src/lib/configReader.ts:33-39 | a resolved configuration always has a numeric port |

## Left out

- `Text.ToNumber` models `Number()` only for strings of decimal digits (including `""`, which is 0) and treats every other string as `NaN`. JavaScript also accepts signs, a decimal point, exponents, `0x`/`0o`/`0b` prefixes, `Infinity` and surrounding whitespace. So a prefix such as `" 12345678"` or a port such as `-1` or `5432.0` is `NaN` in the model but a number in the tool.
- `Text.UpperChar` upper-cases ASCII letters only. The enum type names and member keys of non-ASCII labels are not modelled beyond that: `\w` without the `u` flag is ASCII anyway, but `toUpperCase` of the first letter of a type-name piece is not.
- `ArraySort.LessThan` compares Dafny characters (Unicode scalar values), whereas JavaScript compares UTF-16 code units. The two orders differ only for characters outside the Basic Multilingual Plane.
- `Migrations.ReadMigrations`: for a listing that mixes `NaN` keys with several numeric keys, the comparator is not consistent, and the order a JavaScript engine produces is implementation-defined. The model fixes the insertion-sort order and claims only the permutation in general.
- The file system: `readdir`, `mkdir`, `writeFile`, `readFileSync`, `createReadStream` and `path.join` are left out. The directory listing, the file contents and the configuration lines are parameters. The error raised when the migrations directory cannot be read is left out. So is an unreadable configuration file, which the code does not handle either.
- Splitting the configuration file into lines (`readline`, including its treatment of `\r\n`) is the stream library's work; the lines are given.
- The database: `client.query`, `client.runMigration`, transactions and ledger writes are left out. `src/lib/databaseManager.ts` is not part of this model. The ledger rows and enum catalogue rows are parameters, and the outcome of each `runMigration` is the parameter `step`.
- `src/lib/config.ts` is not part of this model. Its constants for the migrations folder and the two script file names are the `StoreLayout` parameter.
- The interactive parts are left out, because they are terminal I/O:
  - the action menu and its loop;
  - `chooseMigration`;
  - the run-one-migration and run-one-rollback branches (the model covers their filtering through `Migrations.PendingContents`, but not the prompt);
  - console output;
  - `process.exit` when the configuration is rejected.
- `Date.now()` is the parameter `nowMs` of `Migrations.NewMigrationName`. Only the folder name is modelled; creating the folder and its two empty files is not.
- `values.sort()` sorts the map's label arrays in place. Nothing reads them afterwards, so the model sorts a copy.
- `EnumCodegen.WriteEnumsToFiles` lists one file per map entry in order. When two type names map to the same file name, the tool's later write replaces the earlier file; the model does not collapse the two.
- `EnumCodegen.MemberLine` writes labels containing `"` or `\` unescaped, as the tool does. No claim is made that the generated file is valid TypeScript.
- `ConfigReader.Message` gives the three error texts. The model does not wrap them in `Error` objects.
