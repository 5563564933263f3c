/** The migration side of the database-management tool, without its prompts,
    file system and database calls: ordering the folders of the migrations
    directory, splitting them against the names recorded in the `migrations`
    ledger table, choosing the script file of a folder, naming a new folder,
    and the run-all loop over the pending folders. */
module Migrations {
  import opened Text
  import ArraySort

  // ---------------------------------------------------------------------
  // ordering the folder listing
  // ---------------------------------------------------------------------

  /** `Number(name.slice(0, 10))`, the sort key of a folder name. */
  function TimestampKey(name: string): JsNumber {
    ToNumber(Prefix(name, 10))
  }

  /** The comparator handed to `folders.sort`: 1 when the first key is
      greater, -1 when the second is, 0 otherwise, which includes every
      comparison with a `NaN` key. */
  function CompareFolders(a: string, b: string): (r: int)
    ensures r == -1 || r == 0 || r == 1
    ensures r == 0 <==> TimestampKey(a).NaN? || TimestampKey(b).NaN? || TimestampKey(a) == TimestampKey(b)
    ensures r < 0 <==> TimestampKey(a).Num? && TimestampKey(b).Num? && TimestampKey(a).value < TimestampKey(b).value
  {
    var firstTime := TimestampKey(a);
    var secondTime := TimestampKey(b);
    if Greater(firstTime, secondTime) then 1
    else if Greater(secondTime, firstTime) then -1
    else 0
  }

  /** The comparator is antisymmetric on every pair of names. */
  lemma CompareFoldersAntisymmetric(a: string, b: string)
    ensures CompareFolders(a, b) == -CompareFolders(b, a)
  {
  }

  /** Every name starts with ten decimal digits, or is a shorter string of
      digits: every key is a number. */
  predicate AllTimestamped(names: seq<string>) {
    forall i :: 0 <= i < |names| ==> TimestampKey(names[i]).Num?
  }

  /** `readMigrations` after `readdir`: the listing sorted in place. */
  function ReadMigrations(folders: seq<string>): (r: seq<string>)
    ensures multiset(r) == multiset(folders)
  {
    ArraySort.Sort(folders, CompareFolders)
  }

  /** The names of `s` whose key is `key`, in their order in `s`. */
  function WithKey(s: seq<string>, key: JsNumber): seq<string> {
    if |s| == 0 then []
    else (if TimestampKey(s[0]) == key then [s[0]] else []) + WithKey(s[1..], key)
  }

  lemma CompareFoldersConsistent(names: seq<string>)
    requires AllTimestamped(names)
    ensures ArraySort.ConsistentOn(CompareFolders, names)
  {
    forall a, b | a in names && b in names
      ensures CompareFolders(a, b) == -CompareFolders(b, a)
    {
      CompareFoldersAntisymmetric(a, b);
    }
    forall a, b, c | a in names && b in names && c in names && CompareFolders(a, b) <= 0 && CompareFolders(b, c) <= 0
      ensures CompareFolders(a, c) <= 0
    {
      var i :| 0 <= i < |names| && names[i] == a;
      var j :| 0 <= j < |names| && names[j] == b;
      var k :| 0 <= k < |names| && names[k] == c;
    }
  }

  lemma {:induction false} TiesAreSameKey(s: seq<string>, k: string)
    requires AllTimestamped(s) && TimestampKey(k).Num?
    ensures ArraySort.Ties(s, k, CompareFolders) == WithKey(s, TimestampKey(k))
  {
    if |s| > 0 {
      assert TimestampKey(s[0]).Num?;
      assert AllTimestamped(s[1..]) by {
        forall i | 0 <= i < |s| - 1
          ensures TimestampKey(s[1..][i]).Num?
        {
          assert s[1..][i] == s[i + 1];
        }
      }
      TiesAreSameKey(s[1..], k);
    }
  }

  lemma AllTimestampedPermutation(s: seq<string>, t: seq<string>)
    requires AllTimestamped(s) && multiset(t) == multiset(s)
    ensures AllTimestamped(t)
  {
    forall i | 0 <= i < |t|
      ensures TimestampKey(t[i]).Num?
    {
      assert t[i] in multiset(s);
      var j :| 0 <= j < |s| && s[j] == t[i];
    }
  }

  /** When every key is a number, the listing comes back in ascending key
      order, and names with the same key keep their listing order. */
  lemma ReadMigrationsOrdered(folders: seq<string>)
    requires AllTimestamped(folders)
    ensures AllTimestamped(ReadMigrations(folders))
    ensures forall i, j :: 0 <= i < j < |ReadMigrations(folders)| ==>
      TimestampKey(ReadMigrations(folders)[i]).value <= TimestampKey(ReadMigrations(folders)[j]).value
    ensures forall k :: k in folders ==>
      WithKey(ReadMigrations(folders), TimestampKey(k)) == WithKey(folders, TimestampKey(k))
  {
    var r := ReadMigrations(folders);
    CompareFoldersConsistent(folders);
    ArraySort.SortSorted(folders, CompareFolders);
    AllTimestampedPermutation(folders, r);
    forall k | k in folders
      ensures WithKey(r, TimestampKey(k)) == WithKey(folders, TimestampKey(k))
    {
      ArraySort.SortStable(folders, k, CompareFolders);
      TiesAreSameKey(r, k);
      TiesAreSameKey(folders, k);
    }
  }

  /** Any arrangement of the listing in ascending key order that keeps the
      listing order of equal keys is the one `readMigrations` returns, so
      the model does not depend on the engine's sorting algorithm. */
  lemma ReadMigrationsUnique(folders: seq<string>, t: seq<string>)
    requires AllTimestamped(folders)
    requires multiset(t) == multiset(folders)
    requires forall i, j :: 0 <= i < j < |t| ==> TimestampKey(t[i]).Num? && TimestampKey(t[j]).Num? && TimestampKey(t[i]).value <= TimestampKey(t[j]).value
    requires forall k :: k in folders ==> WithKey(t, TimestampKey(k)) == WithKey(folders, TimestampKey(k))
    ensures t == ReadMigrations(folders)
  {
    CompareFoldersConsistent(folders);
    AllTimestampedPermutation(folders, t);
    forall k | k in folders
      ensures ArraySort.Ties(t, k, CompareFolders) == ArraySort.Ties(folders, k, CompareFolders)
    {
      var i :| 0 <= i < |folders| && folders[i] == k;
      TiesAreSameKey(t, k);
      TiesAreSameKey(folders, k);
    }
    ArraySort.SortUnique(folders, t, CompareFolders);
  }

  /** A name whose first ten characters are not all digits has a `NaN`
      key and compares equal to every name; when no two names both have a
      numeric key, the listing order is returned unchanged. */
  lemma {:induction false} NaNKeysKeepListingOrder(folders: seq<string>)
    requires forall i, j :: 0 <= i < j < |folders| ==> TimestampKey(folders[i]).NaN? || TimestampKey(folders[j]).NaN?
    ensures ReadMigrations(folders) == folders
  {
    if |folders| > 0 {
      var tail := folders[1..];
      assert forall i, j :: 0 <= i < j < |tail| ==> TimestampKey(tail[i]).NaN? || TimestampKey(tail[j]).NaN? by {
        forall i, j | 0 <= i < j < |tail|
          ensures TimestampKey(tail[i]).NaN? || TimestampKey(tail[j]).NaN?
        {
          assert tail[i] == folders[i + 1] && tail[j] == folders[j + 1];
        }
      }
      NaNKeysKeepListingOrder(tail);
      if |tail| > 0 {
        assert CompareFolders(folders[0], tail[0]) == 0 by {
          assert tail[0] == folders[1];
        }
      }
      assert [folders[0]] + tail == folders;
    }
  }

  /** The listing `100-a`, `50-b`, `9999999999-c` is not put in numeric
      order: the first two keys are `NaN`. */
  lemma ShortPrefixListing()
    ensures ReadMigrations(["100-a", "50-b", "9999999999-c"]) == ["100-a", "50-b", "9999999999-c"]
  {
    var s := ["100-a", "50-b", "9999999999-c"];
    assert !IsDigit(s[0][3]) && !IsDigit(s[1][2]);
    assert TimestampKey(s[0]).NaN? && TimestampKey(s[1]).NaN?;
    NaNKeysKeepListingOrder(s);
  }

  // ---------------------------------------------------------------------
  // pending and rollback candidates
  // ---------------------------------------------------------------------

  /** The `MigrationType` of the database manager: forward or reverse. */
  datatype MigrationType = Migration | Rollback

  /** A row of `SELECT * FROM migrations`; only `name` is read. */
  datatype LedgerRow = LedgerRow(name: string)

  function LedgerNames(rows: seq<LedgerRow>): seq<string> {
    seq(|rows|, i requires 0 <= i < |rows| => rows[i].name)
  }

  /** Whether the filter callback's return value is truthy: the callback
      returns the name itself (falsy when empty) in the two matching cases
      and `undefined` otherwise. */
  predicate Keeps(kind: MigrationType, ran: seq<string>, m: string) {
    if kind == Migration && m !in ran then m != ""
    else if kind == Rollback && m in ran then m != ""
    else false
  }

  /** `a` is `b` with some elements left out, the rest in order. */
  predicate IsSubsequence(a: seq<string>, b: seq<string>)
    decreases |b|
  {
    if |a| == 0 then true
    else if |b| == 0 then false
    else if a[0] == b[0] then IsSubsequence(a[1..], b[1..])
    else IsSubsequence(a, b[1..])
  }

  function KeepWhere(s: seq<string>, kind: MigrationType, ran: seq<string>): (r: seq<string>)
    ensures IsSubsequence(r, s)
    ensures forall m :: multiset(r)[m] == if Keeps(kind, ran, m) then multiset(s)[m] else 0
  {
    if |s| == 0 then []
    else
      var rest := KeepWhere(s[1..], kind, ran);
      assert s == [s[0]] + s[1..];
      if Keeps(kind, ran, s[0]) then
        assert ([s[0]] + rest)[1..] == rest;
        [s[0]] + rest
      else
        assert |rest| > 0 ==> rest[0] in multiset(rest);
        rest
  }

  /** `filterMigrations`: the listed names the callback keeps, each as often
      as it is listed, in listing order. */
  function FilterMigrations(migrations: seq<string>, ledger: seq<LedgerRow>, kind: MigrationType): (r: seq<string>)
    ensures IsSubsequence(r, migrations)
    ensures forall m :: multiset(r)[m] ==
                        if m != "" && (kind == Migration <==> m !in LedgerNames(ledger)) then multiset(migrations)[m] else 0
  {
    KeepWhere(migrations, kind, LedgerNames(ledger))
  }

  /** The forward and the rollback selections split the non-empty listed
      names: no name is in both, every non-empty listed name is in one, and
      a ledger name without a folder is in neither. */
  lemma FilterPartition(migrations: seq<string>, ledger: seq<LedgerRow>)
    ensures var pending := FilterMigrations(migrations, ledger, Migration);
      var applied := FilterMigrations(migrations, ledger, Rollback);
      && (forall m :: multiset(pending)[m] + multiset(applied)[m] == if m == "" then 0 else multiset(migrations)[m])
      && (forall m :: m in pending ==> m !in applied)
      && (forall m :: m in pending ==> m in migrations && m !in LedgerNames(ledger))
      && (forall m :: m in applied ==> m in migrations && m in LedgerNames(ledger))
      && (forall m :: m in migrations && m != "" ==> m in pending || m in applied)
  {
    var pending := FilterMigrations(migrations, ledger, Migration);
    var applied := FilterMigrations(migrations, ledger, Rollback);
    forall m | m in pending
      ensures m !in applied && m in migrations && m !in LedgerNames(ledger)
    {
      assert multiset(pending)[m] > 0;
    }
    forall m | m in applied
      ensures m in migrations && m in LedgerNames(ledger)
    {
      assert multiset(applied)[m] > 0;
    }
    forall m | m in migrations && m != ""
      ensures m in pending || m in applied
    {
      assert multiset(migrations)[m] > 0;
      assert multiset(pending)[m] > 0 || multiset(applied)[m] > 0;
    }
  }

  /** The names the run-all and run-one-migration branches offer: the
      sorted listing without the names already in the ledger. */
  function Pending(folders: seq<string>, ledger: seq<LedgerRow>): seq<string> {
    FilterMigrations(ReadMigrations(folders), ledger, Migration)
  }

  /** The names the run-one-rollback branch offers. */
  function RollbackCandidates(folders: seq<string>, ledger: seq<LedgerRow>): seq<string> {
    FilterMigrations(ReadMigrations(folders), ledger, Rollback)
  }

  /** Pending names are listed folders absent from the ledger, and each
      appears as often as it is listed. */
  lemma PendingContents(folders: seq<string>, ledger: seq<LedgerRow>)
    ensures forall m :: multiset(Pending(folders, ledger))[m] ==
                        if m != "" && m !in LedgerNames(ledger) then multiset(folders)[m] else 0
    ensures forall m :: multiset(RollbackCandidates(folders, ledger))[m] ==
                        if m != "" && m in LedgerNames(ledger) then multiset(folders)[m] else 0
  {
  }

  // ---------------------------------------------------------------------
  // the script of a folder
  // ---------------------------------------------------------------------

  /** The migrations directory and the two script file names, constants of
      the tool's configuration module. */
  datatype StoreLayout = StoreLayout(folder: string, migrationFile: string, rollbackFile: string)

  datatype FileConfig = FileConfig(migrationFolder: string, migrationName: string, migrationTypeFile: string)

  /** `getFileConfig`: the forward script for `Migration`, the reverse one
      otherwise, and the folder name unchanged. */
  function GetFileConfig(layout: StoreLayout, folderName: string, kind: MigrationType): (c: FileConfig)
    ensures c.migrationFolder == layout.folder && c.migrationName == folderName
    ensures kind == Migration ==> c.migrationTypeFile == layout.migrationFile
    ensures kind == Rollback ==> c.migrationTypeFile == layout.rollbackFile
    ensures layout.migrationFile != layout.rollbackFile ==>
      (c.migrationTypeFile == layout.migrationFile <==> kind == Migration)
  {
    FileConfig(layout.folder, folderName, if kind == Migration then layout.migrationFile else layout.rollbackFile)
  }

  // ---------------------------------------------------------------------
  // naming a new migration folder
  // ---------------------------------------------------------------------

  /** The length of the run of `\s` characters at the front of `s`. */
  function LeadingSpaces(s: string): (n: nat)
    ensures n <= |s|
    ensures forall i :: 0 <= i < n ==> IsJsSpace(s[i])
    ensures n < |s| ==> !IsJsSpace(s[n])
  {
    if |s| == 0 || !IsJsSpace(s[0]) then 0 else 1 + LeadingSpaces(s[1..])
  }

  /** `description.replace(/\s+/g, "-")`: each maximal run of whitespace
      becomes one `-`. */
  function Slug(description: string): (r: string)
    ensures forall i :: 0 <= i < |r| ==> !IsJsSpace(r[i])
    decreases |description|
  {
    if |description| == 0 then ""
    else if IsJsSpace(description[0]) then "-" + Slug(description[LeadingSpaces(description)..])
    else [description[0]] + Slug(description[1..])
  }

  /** A description without whitespace is kept as it is. */
  lemma {:induction false} SlugWithoutSpaces(s: string)
    requires forall i :: 0 <= i < |s| ==> !IsJsSpace(s[i])
    ensures Slug(s) == s
  {
    if |s| > 0 {
      SlugWithoutSpaces(s[1..]);
      assert [s[0]] + s[1..] == s;
    }
  }

  /** A non-empty run made only of whitespace becomes a single `-`. */
  lemma SlugOfSpaceRun(s: string)
    requires |s| > 0 && forall i :: 0 <= i < |s| ==> IsJsSpace(s[i])
    ensures Slug(s) == "-"
  {
    assert LeadingSpaces(s) == |s|;
    assert s[|s|..] == "";
  }

  lemma {:induction false} LeadingSpacesAppend(a: string, t: string)
    requires |t| > 0 && !IsJsSpace(t[0])
    ensures LeadingSpaces(a + t) == LeadingSpaces(a)
  {
    if |a| > 0 {
      if IsJsSpace(a[0]) {
        assert (a + t)[1..] == a[1..] + t;
        LeadingSpacesAppend(a[1..], t);
      }
    } else {
      assert a + t == t;
    }
  }

  /** A character that is not whitespace separates the replacement: what
      comes before it and what comes after it are replaced on their own. */
  lemma {:induction false} SlugAroundNonSpace(a: string, c: char, b: string)
    requires !IsJsSpace(c)
    ensures Slug(a + [c] + b) == Slug(a) + [c] + Slug(b)
    decreases |a|
  {
    var s := a + [c] + b;
    if |a| == 0 {
      assert s == [c] + b;
      assert s[1..] == b;
    } else if !IsJsSpace(a[0]) {
      assert s[0] == a[0];
      assert s[1..] == a[1..] + [c] + b;
      SlugAroundNonSpace(a[1..], c, b);
    } else {
      var n := LeadingSpaces(a);
      LeadingSpacesAppend(a, [c] + b);
      assert s == a + ([c] + b);
      assert s[n..] == a[n..] + [c] + b;
      SlugAroundNonSpace(a[n..], c, b);
    }
  }

  /** The name of a new migration folder created at `nowMs` milliseconds
      after the epoch: the whole seconds, a `-`, and the slug of the
      description. */
  function NewMigrationName(nowMs: nat, description: string): (name: string)
    ensures forall i :: 0 <= i < |name| ==> !IsJsSpace(name[i])
  {
    var timestamp := nowMs / 1000;
    DecimalString(timestamp) + "-" + Slug(description)
  }

  /** A folder created between 2001-09-09 and 2286-11-20 has a ten-digit
      timestamp, and its sort key is exactly that timestamp. */
  lemma NewMigrationNameKey(nowMs: nat, description: string)
    requires Pow10(9) <= nowMs / 1000 < Pow10(10)
    ensures TimestampKey(NewMigrationName(nowMs, description)) == Num(nowMs / 1000)
  {
    var digits := DecimalString(nowMs / 1000);
    DecimalStringLength(nowMs / 1000, 10);
    var name := NewMigrationName(nowMs, description);
    assert name == digits + ("-" + Slug(description));
    assert Prefix(name, 10) == digits;
    NumberOfDecimalString(nowMs / 1000);
  }

  /** Folders created in successive seconds of that range sort in creation
      order; folders created in the same second tie. */
  lemma NewMigrationNamesOrdered(t1: nat, d1: string, t2: nat, d2: string)
    requires Pow10(9) <= t1 / 1000 < Pow10(10) && Pow10(9) <= t2 / 1000 < Pow10(10)
    ensures t1 / 1000 < t2 / 1000 ==> CompareFolders(NewMigrationName(t1, d1), NewMigrationName(t2, d2)) == -1
    ensures t1 / 1000 == t2 / 1000 ==> CompareFolders(NewMigrationName(t1, d1), NewMigrationName(t2, d2)) == 0
  {
    NewMigrationNameKey(t1, d1);
    NewMigrationNameKey(t2, d2);
  }

  // ---------------------------------------------------------------------
  // run all pending migrations
  // ---------------------------------------------------------------------

  /** What one `runMigration` call does: it returns, or it throws. */
  datatype StepOutcome = Succeeded | Threw(cause: string)

  /** The end of the run-all loop: every step returned, or one threw. */
  datatype RunReport =
    | Completed(applied: seq<string>)
    | Halted(applied: seq<string>, failed: string, cause: string)

  /** The names whose step was started. */
  function Attempted(report: RunReport): seq<string> {
    match report
    case Completed(applied) => applied
    case Halted(applied, failed, _) => applied + [failed]
  }

  /** The `for ... of` loop of the run-all branch; `step(k)` is what the
      k-th call of `runMigration` does. */
  method RunPending(pending: seq<string>, step: nat -> StepOutcome) returns (report: RunReport)
    ensures Attempted(report) <= pending
    ensures report.Completed? <==> forall k :: 0 <= k < |pending| ==> step(k).Succeeded?
    ensures report.Completed? ==> report.applied == pending
    ensures report.Halted? ==>
      var n := |report.applied|;
      && n < |pending|
      && report.failed == pending[n]
      && step(n) == Threw(report.cause)
      && forall k :: 0 <= k < n ==> step(k).Succeeded?
  {
    var applied: seq<string> := [];
    var i := 0;
    while i < |pending|
      invariant 0 <= i <= |pending|
      invariant applied == pending[..i]
      invariant forall k :: 0 <= k < i ==> step(k).Succeeded?
    {
      match step(i)
      case Threw(cause) =>
        assert applied + [pending[i]] == pending[..i + 1];
        return Halted(applied, pending[i], cause);
      case Succeeded =>
        applied := applied + [pending[i]];
      i := i + 1;
    }
    assert pending[..i] == pending;
    report := Completed(applied);
  }

  /** The run-all menu branch: filter the sorted listing to the pending
      names, run them front to back, and regenerate the enum files only
      when no step threw (a throw leaves the menu loop). */
  method RunAll(folders: seq<string>, ledger: seq<LedgerRow>, step: nat -> StepOutcome)
    returns (report: RunReport, regenerateEnums: bool)
    ensures Attempted(report) <= Pending(folders, ledger)
    ensures report.Completed? ==> report.applied == Pending(folders, ledger)
    ensures regenerateEnums <==> report.Completed?
    ensures regenerateEnums <==> forall k :: 0 <= k < |Pending(folders, ledger)| ==> step(k).Succeeded?
    ensures forall m :: m in Attempted(report) ==> m in folders && m !in LedgerNames(ledger)
    ensures Pending(folders, ledger) == [] ==> report == Completed([])
    ensures report.Halted? ==>
      var n := |report.applied|;
      && n < |Pending(folders, ledger)|
      && report.failed == Pending(folders, ledger)[n]
      && step(n) == Threw(report.cause)
      && forall k :: 0 <= k < n ==> step(k).Succeeded?
  {
    var pending := Pending(folders, ledger);
    report := RunPending(pending, step);
    regenerateEnums := report.Completed?;
    forall m | m in Attempted(report)
      ensures m in folders && m !in LedgerNames(ledger)
    {
      assert m in pending;
      assert multiset(pending)[m] > 0;
      assert m in multiset(ReadMigrations(folders));
    }
  }
}
