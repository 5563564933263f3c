/** Enum code generation: the rows of the `pg_enum` catalogue query are
    grouped by type name into an insertion-ordered `Map`, and every entry
    becomes a TypeScript `export enum` declaration in a file of its own. */
module EnumCodegen {
  import opened Wrappers
  import opened Text
  import ArraySort

  /** One row of the catalogue query: schema, type name and label, in the
      query's order (schema, type name, label sort order). */
  datatype EnumRow = EnumRow(schema: string, name: string, value: string)

  // ---------------------------------------------------------------------
  // a JavaScript Map with string keys
  // ---------------------------------------------------------------------

  /** A `Map<string, V>`: its keys in insertion order and its entries. */
  datatype JsMap<V> = JsMap(order: seq<string>, entries: map<string, V>)

  /** The keys in `order` are distinct and are exactly the entry keys. */
  ghost predicate Valid<V>(m: JsMap<V>) {
    && (forall i, j :: 0 <= i < j < |m.order| ==> m.order[i] != m.order[j])
    && (forall k :: k in m.entries <==> k in m.order)
  }

  /** `m.get(k)`, with `undefined` as `None`. */
  function Get<V>(m: JsMap<V>, k: string): Option<V> {
    if k in m.entries then Some(m.entries[k]) else None
  }

  /** `m.set(k, v)`: a new key goes last, an existing key keeps its place. */
  function Set<V>(m: JsMap<V>, k: string, v: V): (r: JsMap<V>)
    ensures Valid(m) ==> Valid(r)
    ensures r.entries == m.entries[k := v]
    ensures |r.order| == if k in m.entries then |m.order| else |m.order| + 1
    ensures m.order <= r.order
    ensures k !in m.entries ==> r.order[|m.order|] == k
  {
    if k in m.entries then JsMap(m.order, m.entries[k := v])
    else JsMap(m.order + [k], m.entries[k := v])
  }

  // ---------------------------------------------------------------------
  // grouping the rows
  // ---------------------------------------------------------------------

  function RowNames(rows: seq<EnumRow>): seq<string> {
    seq(|rows|, i requires 0 <= i < |rows| => rows[i].name)
  }

  /** The distinct elements of `s` in order of first appearance. */
  function Distinct(s: seq<string>): (r: seq<string>)
    ensures forall x :: x in r <==> x in s
    ensures forall i, j :: 0 <= i < j < |r| ==> r[i] != r[j]
  {
    if |s| == 0 then []
    else
      var d := Distinct(s[..|s| - 1]);
      assert forall x :: x in s <==> x in s[..|s| - 1] || x == s[|s| - 1] by {
        assert s == s[..|s| - 1] + [s[|s| - 1]];
      }
      if s[|s| - 1] in s[..|s| - 1] then d else d + [s[|s| - 1]]
  }

  /** The labels of the rows named `name`, in row order. */
  function ValuesOf(rows: seq<EnumRow>, name: string): seq<string> {
    if |rows| == 0 then []
    else
      ValuesOf(rows[..|rows| - 1], name)
      + (if rows[|rows| - 1].name == name then [rows[|rows| - 1].value] else [])
  }

  lemma {:induction false} ValuesOfAbsent(rows: seq<EnumRow>, k: string)
    ensures k !in RowNames(rows) ==> ValuesOf(rows, k) == []
  {
    if |rows| > 0 && k !in RowNames(rows) {
      RowNamesPrefix(rows);
      var n := |rows| - 1;
      assert RowNames(rows) == RowNames(rows[..n]) + [rows[n].name];
      ValuesOfAbsent(rows[..n], k);
    }
  }

  lemma RowNamesPrefix(rows: seq<EnumRow>)
    requires |rows| > 0
    ensures RowNames(rows[..|rows| - 1]) == RowNames(rows)[..|rows| - 1]
    ensures RowNames(rows)[|rows| - 1] == rows[|rows| - 1].name
  {
  }

  /** One turn of the grouping loop: the row's label appended to its type's
      list, or a new list for a new type. */
  function AddRow(enums: JsMap<seq<string>>, row: EnumRow): JsMap<seq<string>> {
    var prevValue := Get(enums, row.name);
    Set(enums, row.name, (if prevValue.Some? then prevValue.value else []) + [row.value])
  }

  /** `getEnums`: the map's keys are the distinct type names in order of
      first appearance, and each maps to its labels in row order. The schema
      is not looked at. */
  function GetEnums(rows: seq<EnumRow>): (m: JsMap<seq<string>>)
    ensures Valid(m)
    ensures m.order == Distinct(RowNames(rows))
    ensures forall k :: k in m.entries ==> m.entries[k] == ValuesOf(rows, k)
  {
    if |rows| == 0 then JsMap([], map[])
    else
      var enums := GetEnums(rows[..|rows| - 1]);
      AddRowGroups(rows, enums);
      AddRow(enums, rows[|rows| - 1])
  }

  /** One turn of the loop keeps the map grouping the rows seen so far. */
  lemma AddRowGroups(rows: seq<EnumRow>, enums: JsMap<seq<string>>)
    requires |rows| > 0
    requires Valid(enums)
    requires enums.order == Distinct(RowNames(rows[..|rows| - 1]))
    requires forall k :: k in enums.entries ==> enums.entries[k] == ValuesOf(rows[..|rows| - 1], k)
    ensures var m := AddRow(enums, rows[|rows| - 1]);
      && Valid(m)
      && m.order == Distinct(RowNames(rows))
      && forall k :: k in m.entries ==> m.entries[k] == ValuesOf(rows, k)
  {
    var n := |rows| - 1;
    RowNamesSnoc(rows);
    AddRowOrder(enums, RowNames(rows[..n]), rows[n]);
    AddRowEntries(rows, enums);
  }

  /** A new name goes to the end of the first-appearance order. */
  lemma AddRowOrder(enums: JsMap<seq<string>>, names: seq<string>, row: EnumRow)
    requires Valid(enums) && enums.order == Distinct(names)
    ensures Valid(AddRow(enums, row))
    ensures AddRow(enums, row).order == Distinct(names + [row.name])
  {
    var s := names + [row.name];
    assert s[..|s| - 1] == names;
    assert s[|s| - 1] == row.name;
  }

  lemma AddRowEntries(rows: seq<EnumRow>, enums: JsMap<seq<string>>)
    requires |rows| > 0
    requires Valid(enums)
    requires enums.order == Distinct(RowNames(rows[..|rows| - 1]))
    requires forall k :: k in enums.entries ==> enums.entries[k] == ValuesOf(rows[..|rows| - 1], k)
    ensures var m := AddRow(enums, rows[|rows| - 1]);
      forall k :: k in m.entries ==> m.entries[k] == ValuesOf(rows, k)
  {
    var n := |rows| - 1;
    AbsentKeyUnseen(enums, RowNames(rows[..n]), rows[n].name);
    AddRowValues(rows, enums);
  }

  lemma AbsentKeyUnseen(enums: JsMap<seq<string>>, names: seq<string>, k: string)
    requires Valid(enums) && enums.order == Distinct(names)
    ensures k !in enums.entries ==> k !in names
  {
  }

  /** Appending a row extends exactly its own type's labels. */
  lemma AddRowValues(rows: seq<EnumRow>, enums: JsMap<seq<string>>)
    requires |rows| > 0
    requires forall k :: k in enums.entries ==> enums.entries[k] == ValuesOf(rows[..|rows| - 1], k)
    requires rows[|rows| - 1].name !in enums.entries ==> rows[|rows| - 1].name !in RowNames(rows[..|rows| - 1])
    ensures forall k :: k in AddRow(enums, rows[|rows| - 1]).entries ==>
      AddRow(enums, rows[|rows| - 1]).entries[k] == ValuesOf(rows, k)
  {
    var prefix, row := rows[..|rows| - 1], rows[|rows| - 1];
    var m := AddRow(enums, row);
    forall k | k in m.entries
      ensures m.entries[k] == ValuesOf(rows, k)
    {
      assert ValuesOf(rows, k) == ValuesOf(prefix, k) + (if row.name == k then [row.value] else []);
      if k == row.name && k !in enums.entries {
        ValuesOfAbsent(prefix, k);
      }
    }
  }

  lemma RowNamesSnoc(rows: seq<EnumRow>)
    requires |rows| > 0
    ensures RowNames(rows) == RowNames(rows[..|rows| - 1]) + [rows[|rows| - 1].name]
  {
    RowNamesPrefix(rows);
    var n := |rows| - 1;
    assert RowNames(rows) == RowNames(rows)[..n] + [RowNames(rows)[n]];
  }

  /** Every type in the map has at least one label. */
  lemma GetEnumsNonEmpty(rows: seq<EnumRow>, k: string)
    requires k in RowNames(rows)
    ensures k in GetEnums(rows).entries && |GetEnums(rows).entries[k]| > 0
  {
    ValuesOfNonEmpty(rows, k);
  }

  lemma {:induction false} ValuesOfNonEmpty(rows: seq<EnumRow>, k: string)
    requires k in RowNames(rows)
    ensures |ValuesOf(rows, k)| > 0
  {
    var n := |rows| - 1;
    RowNamesPrefix(rows);
    if rows[n].name != k {
      var i :| 0 <= i < |rows| && RowNames(rows)[i] == k;
      assert RowNames(rows[..n])[i] == k;
      ValuesOfNonEmpty(rows[..n], k);
    }
  }

  /** Rows that differ only in their schema give the same map, so equally
      named types of two schemas are merged into one entry. */
  lemma {:induction false} SchemaIgnored(a: seq<EnumRow>, b: seq<EnumRow>)
    requires |a| == |b|
    requires forall i :: 0 <= i < |a| ==> a[i].name == b[i].name && a[i].value == b[i].value
    ensures GetEnums(a) == GetEnums(b)
  {
    if |a| > 0 {
      var n := |a| - 1;
      SchemaIgnored(a[..n], b[..n]);
      GetEnumsStep(a);
      GetEnumsStep(b);
      AddRowIgnoresSchema(GetEnums(a[..n]), a[n], b[n]);
    }
  }

  lemma GetEnumsStep(rows: seq<EnumRow>)
    requires |rows| > 0
    ensures GetEnums(rows) == AddRow(GetEnums(rows[..|rows| - 1]), rows[|rows| - 1])
  {
  }

  lemma AddRowIgnoresSchema(enums: JsMap<seq<string>>, r1: EnumRow, r2: EnumRow)
    requires r1.name == r2.name && r1.value == r2.value
    ensures AddRow(enums, r1) == AddRow(enums, r2)
  {
  }


  // ---------------------------------------------------------------------
  // the enum type name
  // ---------------------------------------------------------------------

  /** `piece.charAt(0).toUpperCase() + piece.slice(1)`. */
  function Capitalize(piece: string): string {
    if |piece| == 0 then "" else [UpperChar(piece[0])] + piece[1..]
  }

  function CapitalizeAll(pieces: seq<string>): seq<string> {
    if |pieces| == 0 then [] else [Capitalize(pieces[0])] + CapitalizeAll(pieces[1..])
  }

  /** The pieces concatenated, `join("")`. */
  function Concat(pieces: seq<string>): string {
    if |pieces| == 0 then "" else pieces[0] + Concat(pieces[1..])
  }

  lemma {:induction false} JoinEmptyIsConcat(pieces: seq<string>)
    ensures Join(pieces, "") == Concat(pieces)
  {
    if |pieces| > 1 {
      JoinEmptyIsConcat(pieces[1..]);
    } else if |pieces| == 1 {
      assert Concat(pieces[1..]) == "";
    }
  }

  /** `key.split("_").map(capitalize).join("")`. */
  function EnumTypeName(key: string): string {
    Join(CapitalizeAll(Split(key, '_')), "")
  }

  /** The type name read off the key in one pass: every `_` is dropped and
      the character that starts the key or follows a `_` is upper-cased. */
  function PascalScan(s: string, atStart: bool): (r: string)
    ensures '_' !in r
  {
    if |s| == 0 then ""
    else if s[0] == '_' then PascalScan(s[1..], true)
    else [if atStart then UpperChar(s[0]) else s[0]] + PascalScan(s[1..], false)
  }

  lemma {:induction false} PascalScanIsSplitMapJoin(s: string)
    ensures PascalScan(s, true) == Concat(CapitalizeAll(Split(s, '_')))
    ensures PascalScan(s, false) == Split(s, '_')[0] + Concat(CapitalizeAll(Split(s, '_')[1..]))
  {
    if |s| > 0 {
      PascalScanIsSplitMapJoin(s[1..]);
      var rest := Split(s[1..], '_');
      if s[0] == '_' {
        assert Split(s, '_') == [""] + rest;
        assert ([""] + rest)[1..] == rest;
      } else {
        var head := [s[0]] + rest[0];
        assert Split(s, '_') == [head] + rest[1..];
        assert ([head] + rest[1..])[1..] == rest[1..];
        assert Capitalize(head) == [UpperChar(s[0])] + rest[0] by {
          assert head[1..] == rest[0];
        }
      }
    }
  }

  /** The enum type name has no `_`, and it is the key with every `_`
      dropped and the first character and each character after a `_`
      upper-cased. */
  lemma EnumTypeNameScan(key: string)
    ensures EnumTypeName(key) == PascalScan(key, true)
    ensures '_' !in EnumTypeName(key)
  {
    JoinEmptyIsConcat(CapitalizeAll(Split(key, '_')));
    PascalScanIsSplitMapJoin(key);
  }

  /** A key of two `_`-separated words becomes the two words capitalised
      and joined. */
  lemma EnumTypeNameOfTwoWords(a: string, b: string)
    requires '_' !in a && '_' !in b
    ensures EnumTypeName(a + "_" + b) == Capitalize(a) + Capitalize(b)
  {
    assert a + "_" + b == a + ['_'] + b;
    SplitAtFirst(a, '_', b);
    SplitNoSep(b, '_');
    var parts := [a, b];
    assert Split(a + "_" + b, '_') == parts;
    assert CapitalizeAll(parts) == [Capitalize(a), Capitalize(b)] by {
      assert parts[1..] == [b];
      assert CapitalizeAll([b]) == [Capitalize(b)];
    }
    var caps := [Capitalize(a), Capitalize(b)];
    assert caps[1..] == [Capitalize(b)];
    assert Join(caps, "") == Capitalize(a) + "" + Capitalize(b);
  }

  // ---------------------------------------------------------------------
  // the member keys
  // ---------------------------------------------------------------------

  /** `value.replace(/\s/g, "_")`. */
  function SpacesToUnderscores(s: string): string {
    seq(|s|, i requires 0 <= i < |s| => if IsJsSpace(s[i]) then '_' else s[i])
  }

  /** `s.replace(/\W/g, "")`. */
  function DropNonWord(s: string): (r: string)
    ensures forall i :: 0 <= i < |r| ==> IsWordChar(r[i])
  {
    if |s| == 0 then ""
    else (if IsWordChar(s[0]) then [s[0]] else "") + DropNonWord(s[1..])
  }

  predicate IsKeyChar(c: char) {
    ('A' <= c <= 'Z') || ('0' <= c <= '9') || c == '_'
  }

  /** The member key of a label: whitespace to `_`, other non-word
      characters removed, upper-cased; only `[A-Z0-9_]` remains. */
  function MemberKey(value: string): (r: string)
    ensures forall i :: 0 <= i < |r| ==> IsKeyChar(r[i])
  {
    ToUpper(DropNonWord(SpacesToUnderscores(value)))
  }

  /** What one character of the label contributes to the key. */
  function KeyChars(c: char): string {
    if IsJsSpace(c) then "_" else if IsWordChar(c) then [UpperChar(c)] else ""
  }

  function KeyByChar(s: string): string {
    if |s| == 0 then "" else KeyChars(s[0]) + KeyByChar(s[1..])
  }

  lemma {:induction false} MemberKeyByChar(value: string)
    ensures MemberKey(value) == KeyByChar(value)
  {
    if |value| > 0 {
      MemberKeyByChar(value[1..]);
      assert SpacesToUnderscores(value)[1..] == SpacesToUnderscores(value[1..]);
      var spaced := SpacesToUnderscores(value);
      var head := if IsWordChar(spaced[0]) then [spaced[0]] else "";
      assert DropNonWord(spaced) == head + DropNonWord(spaced[1..]);
      assert ToUpper(head + DropNonWord(spaced[1..])) == ToUpper(head) + ToUpper(DropNonWord(spaced[1..]));
    }
  }

  /** A string already made of `[A-Z0-9_]` is its own key. */
  lemma {:induction false} MemberKeyOfKey(s: string)
    requires forall i :: 0 <= i < |s| ==> IsKeyChar(s[i])
    ensures MemberKey(s) == s
  {
    MemberKeyByChar(s);
    KeyByCharOfKey(s);
  }

  lemma {:induction false} KeyByCharOfKey(s: string)
    requires forall i :: 0 <= i < |s| ==> IsKeyChar(s[i])
    ensures KeyByChar(s) == s
  {
    if |s| > 0 {
      KeyByCharOfKey(s[1..]);
      assert [s[0]] + s[1..] == s;
    }
  }

  /** Computing the key of a key changes nothing. */
  lemma MemberKeyIdempotent(value: string)
    ensures MemberKey(MemberKey(value)) == MemberKey(value)
  {
    MemberKeyOfKey(MemberKey(value));
  }

  // ---------------------------------------------------------------------
  // the file contents
  // ---------------------------------------------------------------------

  /** `${key} = "${value}"`, the label written without escaping. */
  function MemberLine(value: string): string {
    MemberKey(value) + " = \"" + value + "\""
  }

  function MemberLines(values: seq<string>): (r: seq<string>)
    ensures |r| == |values|
    ensures forall i :: 0 <= i < |values| ==> r[i] == MemberLine(values[i])
  {
    if |values| == 0 then [] else [MemberLine(values[0])] + MemberLines(values[1..])
  }

  /** The labels in `values.sort()` order. */
  function SortedValues(values: seq<string>): seq<string> {
    ArraySort.Sort(values, ArraySort.DefaultCompare)
  }

  /** The text of one enum file. */
  function EnumContent(enumName: string, values: seq<string>): string {
    "export enum " + enumName + " {\n    "
    + Join(MemberLines(SortedValues(values)), ",\n    ")
    + ",\n}\n"
  }

  datatype EnumFile = EnumFile(fileName: string, content: string)

  function EnumFileFor(key: string, values: seq<string>): EnumFile {
    var enumName := EnumTypeName(key);
    EnumFile(enumName + ".enum.ts", EnumContent(enumName, values))
  }

  /** `writeEnumsToFiles`: one file per map entry, in the map's order. */
  function WriteEnumsToFiles(enums: JsMap<seq<string>>): seq<EnumFile>
    requires forall k :: k in enums.order ==> k in enums.entries
  {
    seq(|enums.order|, i requires 0 <= i < |enums.order| =>
      EnumFileFor(enums.order[i], enums.entries[enums.order[i]]))
  }

  /** The regeneration step after a migration: one file per distinct type
      name, in order of first appearance, holding that type's labels. */
  lemma RegeneratedFiles(rows: seq<EnumRow>)
    ensures var names := Distinct(RowNames(rows));
      var files := WriteEnumsToFiles(GetEnums(rows));
      && |files| == |names|
      && forall i :: 0 <= i < |names| ==>
        && files[i].fileName == EnumTypeName(names[i]) + ".enum.ts"
        && files[i].content == EnumContent(EnumTypeName(names[i]), ValuesOf(rows, names[i]))
  {
  }

  /** The lines of a text, each followed by a newline. */
  function LinesText(lines: seq<string>): string {
    if |lines| == 0 then "" else lines[0] + "\n" + LinesText(lines[1..])
  }

  function Indented(lines: seq<string>): (r: seq<string>)
    ensures |r| == |lines|
    ensures forall i :: 0 <= i < |lines| ==> r[i] == "    " + lines[i] + ","
  {
    if |lines| == 0 then [] else ["    " + lines[0] + ","] + Indented(lines[1..])
  }

  lemma {:induction false} JoinIndented(lines: seq<string>)
    requires |lines| > 0
    ensures "    " + Join(lines, ",\n    ") + ",\n" == LinesText(Indented(lines))
  {
    if |lines| > 1 {
      JoinIndented(lines[1..]);
      assert Indented(lines)[1..] == Indented(lines[1..]);
      var rest := Join(lines[1..], ",\n    ");
      calc {
        "    " + Join(lines, ",\n    ") + ",\n";
        "    " + (lines[0] + ",\n    " + rest) + ",\n";
        ("    " + lines[0] + ",") + "\n" + ("    " + rest + ",\n");
      }
    } else {
      assert Indented(lines)[1..] == [];
    }
  }

  lemma {:induction false} SplitLinesText(lines: seq<string>, tail: string)
    requires forall i :: 0 <= i < |lines| ==> '\n' !in lines[i]
    ensures Split(LinesText(lines) + tail, '\n') == lines + Split(tail, '\n')
  {
    if |lines| > 0 {
      var head, later := lines[0], lines[1..];
      var rest := LinesText(later) + tail;
      assert forall i :: 0 <= i < |later| ==> later[i] == lines[i + 1];
      SplitLinesText(later, tail);
      LinesTextUncons(lines, tail);
      SplitAtFirst(head, '\n', rest);
      calc {
        Split(LinesText(lines) + tail, '\n');
        Split(head + ['\n'] + rest, '\n');
        [head] + Split(rest, '\n');
        [head] + (later + Split(tail, '\n'));
        { assert [head] + later == lines; }
        lines + Split(tail, '\n');
      }
    } else {
      assert LinesText(lines) + tail == tail;
    }
  }

  lemma LinesTextUncons(lines: seq<string>, tail: string)
    requires |lines| > 0
    ensures LinesText(lines) + tail == lines[0] + ['\n'] + (LinesText(lines[1..]) + tail)
  {
    var head, rest := lines[0], LinesText(lines[1..]);
    assert LinesText(lines) == head + "\n" + rest;
    NewlineRegroup(head, rest, tail);
  }

  lemma NewlineRegroup(head: string, rest: string, tail: string)
    ensures head + "\n" + rest + tail == head + ['\n'] + (rest + tail)
  {
  }

  lemma {:induction false} KeyByCharNoNewline(s: string)
    ensures '\n' !in KeyByChar(s)
  {
    if |s| > 0 {
      KeyByCharNoNewline(s[1..]);
    }
  }

  lemma SplitClosing()
    ensures Split("}\n", '\n') == ["}", ""]
  {
    SplitAtFirst("}", '\n', "");
    assert "}\n" == "}" + ['\n'] + "";
  }

  /** The template's string pieces, regrouped around the header line. */
  lemma Regroup(x: string, body: string)
    ensures x + " {\n    " + body + ",\n}\n" == (x + " {") + "\n" + ("    " + body + ",\n") + "}\n"
  {
    assert " {\n    " == " {" + "\n" + "    ";
    assert ",\n}\n" == ",\n" + "}\n";
  }

  lemma LinesTextCons(header: string, lines: seq<string>)
    ensures LinesText([header] + lines) == header + "\n" + LinesText(lines)
  {
    assert ([header] + lines)[1..] == lines;
  }

  lemma ContentAsLines(enumName: string, members: seq<string>)
    requires |members| > 0
    ensures "export enum " + enumName + " {\n    " + Join(members, ",\n    ") + ",\n}\n"
      == LinesText(["export enum " + enumName + " {"] + Indented(members)) + "}\n"
  {
    JoinIndented(members);
    LinesTextCons("export enum " + enumName + " {", Indented(members));
    Regroup("export enum " + enumName, Join(members, ",\n    "));
  }

  lemma MemberLinesNoNewline(values: seq<string>)
    requires forall i :: 0 <= i < |values| ==> '\n' !in values[i]
    ensures forall i :: 0 <= i < |values| ==> '\n' !in MemberLines(values)[i]
  {
    forall i | 0 <= i < |values|
      ensures '\n' !in MemberLines(values)[i]
    {
      MemberKeyByChar(values[i]);
      KeyByCharNoNewline(values[i]);
    }
  }

  /** Laid out line by line, an enum file is the declaration line, one
      member per line indented by four spaces and ending in a comma, in
      sorted label order, and the closing brace, provided no name or label
      contains a line break. */
  lemma EnumContentLines(enumName: string, values: seq<string>)
    requires '\n' !in enumName
    requires forall i :: 0 <= i < |values| ==> '\n' !in values[i]
    requires |values| > 0
    ensures var sorted := SortedValues(values);
      var lines := Split(EnumContent(enumName, values), '\n');
      && |lines| == |sorted| + 3
      && lines[0] == "export enum " + enumName + " {"
      && (forall i :: 0 <= i < |sorted| ==> lines[i + 1] == "    " + MemberLine(sorted[i]) + ",")
      && lines[|sorted| + 1] == "}" && lines[|sorted| + 2] == ""
  {
    var sorted := SortedValues(values);
    assert |sorted| == |multiset(sorted)| == |values|;
    forall i | 0 <= i < |sorted|
      ensures '\n' !in sorted[i]
    {
      assert sorted[i] in multiset(values);
    }
    var members := MemberLines(sorted);
    MemberLinesNoNewline(sorted);
    DeclarationLines(enumName, members);
  }

  /** The declaration text splits into its header, the indented members and
      the closing brace. */
  lemma DeclarationLines(enumName: string, members: seq<string>)
    requires '\n' !in enumName
    requires forall i :: 0 <= i < |members| ==> '\n' !in members[i]
    requires |members| > 0
    ensures Split("export enum " + enumName + " {\n    " + Join(members, ",\n    ") + ",\n}\n", '\n')
      == ["export enum " + enumName + " {"] + Indented(members) + ["}", ""]
  {
    var header := "export enum " + enumName + " {";
    var all := [header] + Indented(members);
    ContentAsLines(enumName, members);
    SplitLinesText(all, "}\n");
    SplitClosing();
  }

  /** `values.sort()` gives the labels in ascending order, each as often as
      it occurs. */
  lemma SortedValuesOrdered(values: seq<string>)
    ensures multiset(SortedValues(values)) == multiset(values)
    ensures forall i, j :: 0 <= i < j < |SortedValues(values)| ==>
      !ArraySort.LessThan(SortedValues(values)[j], SortedValues(values)[i])
  {
    ArraySort.DefaultSortOrdered(values);
  }
}
