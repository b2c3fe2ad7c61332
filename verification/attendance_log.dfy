/** The master attendance log (`AttendanceLog` in `src/AttendanceLog.jsx`): the
    monthly summary rows are grouped by `Name` and merged field by field, the
    table headers are the first merged row's keys without `UID`, and the mobile
    list normalises each status cell. */
module AttendanceLog {
  import opened Wrappers
  import opened JsText

  /** A row of the monthly summary: its keys in insertion order and their values. */
  datatype Record = Record(keys: seq<string>, cells: map<string, string>)

  /** No element occurs twice. */
  ghost predicate Distinct(s: seq<string>)
  {
    forall i, j :: 0 <= i < j < |s| ==> s[i] != s[j]
  }

  /** What every JavaScript object satisfies: no key twice, and the listed keys are
      exactly the keys that have values. */
  ghost predicate WellFormed(r: Record)
  {
    && Distinct(r.keys)
    && (forall k :: k in r.cells <==> k in r.keys)
  }

  /** `row.Name` used as a property key: a row without a name groups under `"undefined"`. */
  function NameKey(r: Record): string
  {
    if "Name" in r.cells then r.cells["Name"] else "undefined"
  }

  /** A merged field a later row may overwrite: empty or `'-'` (a missing field
      may be filled too). */
  predicate BlankCell(v: string)
  {
    v == "" || v == "-"
  }

  /** `obj[key] = value`: an existing key keeps its place, a new key goes last. */
  function SetField(g: Record, key: string, value: string): Record
  {
    Record(if key in g.cells then g.keys else g.keys + [key], g.cells[key := value])
  }

  /** One step of the inner `forEach` over a later row's keys. */
  function MergeKey(g: Record, row: Record, key: string): Record
    requires key in row.cells
  {
    if key != "Name" && key != "UID" && (key !in g.cells || BlankCell(g.cells[key]))
    then SetField(g, key, row.cells[key])
    else g
  }

  /** The merged record after the inner `forEach` has visited `ks`. */
  function MergeKeys(g: Record, row: Record, ks: seq<string>): Record
    requires forall k :: k in ks ==> k in row.cells
  {
    if ks == [] then g else MergeKey(MergeKeys(g, row, ks[..|ks| - 1]), row, ks[|ks| - 1])
  }

  function MergeRow(g: Record, row: Record): Record
    requires WellFormed(row)
  {
    MergeKeys(g, row, row.keys)
  }

  /** `groupedData`: the names in insertion order and the merged record of each. */
  datatype Groups = Groups(order: seq<string>, byName: map<string, Record>)

  /** One step of the outer `forEach`: a new name starts a group with a copy of
      the row, a known name merges the row into its group. */
  function AddRow(s: Groups, row: Record): (t: Groups)
    requires WellFormed(row)
    requires forall x :: x in s.order <==> x in s.byName
    ensures forall x :: x in t.order <==> x in t.byName
  {
    var name := NameKey(row);
    if name !in s.byName then Groups(s.order + [name], s.byName[name := row])
    else Groups(s.order, s.byName[name := MergeRow(s.byName[name], row)])
  }

  /** `groupedData` after the outer `forEach` has visited `rows`. */
  function GroupState(rows: seq<Record>): (s: Groups)
    requires forall r :: r in rows ==> WellFormed(r)
    ensures forall x :: x in s.order <==> x in s.byName
  {
    if rows == [] then Groups([], map[])
    else
      assert rows[|rows| - 1] in rows;
      AddRow(GroupState(rows[..|rows| - 1]), rows[|rows| - 1])
  }

  /** The inner `forEach`: a later row's keys, visited in order, fill the
      group's missing or blank fields other than `Name` and `UID`. */
  method MergeInto(g: Record, row: Record) returns (m: Record)
    requires WellFormed(row)
    ensures m == MergeRow(g, row)
  {
    m := g;
    var j := 0;
    while j < |row.keys|
      invariant 0 <= j <= |row.keys|
      invariant m == MergeKeys(g, row, row.keys[..j])
    {
      var key := row.keys[j];
      assert key in row.keys;
      assert row.keys[..j + 1] == row.keys[..j] + [key];
      assert MergeKeys(g, row, row.keys[..j + 1]) == MergeKey(m, row, key);
      if key != "Name" && key != "UID" {
        if key !in m.cells || m.cells[key] == "-" || m.cells[key] == "" {
          m := SetField(m, key, row.cells[key]);
        }
      }
      j := j + 1;
    }
    assert row.keys[..j] == row.keys;
  }

  /** The grouping loop (`rawData.forEach`) and `Object.values(groupedData)`. */
  method GroupByName(rows: seq<Record>) returns (merged: seq<Record>)
    requires forall r :: r in rows ==> WellFormed(r)
    ensures var s := GroupState(rows);
      |merged| == |s.order| && forall k :: 0 <= k < |merged| ==> merged[k] == s.byName[s.order[k]]
  {
    var order: seq<string> := [];
    var groups: map<string, Record> := map[];
    var i := 0;
    while i < |rows|
      invariant 0 <= i <= |rows|
      invariant Groups(order, groups) == GroupState(rows[..i])
    {
      assert rows[..i + 1][..i] == rows[..i];
      var row := rows[i];
      assert row in rows;
      var name := NameKey(row);
      if name !in groups {
        groups := groups[name := row];
        order := order + [name];
      } else {
        var m := MergeInto(groups[name], row);
        groups := groups[name := m];
      }
      i := i + 1;
    }
    assert rows[..i] == rows;
    merged := seq(|order|, k requires 0 <= k < |order| => groups[order[k]]);
  }

  // ---------------------------------------------------------------- one merge

  /** After visiting `ks` (no key twice), a field other than `Name`/`UID` is
      replaced only if `ks` holds it and it was missing or blank before. */
  lemma {:induction false} MergeKeysField(g: Record, row: Record, ks: seq<string>, key: string)
    requires forall k :: k in ks ==> k in row.cells
    requires Distinct(ks)
    ensures var r := MergeKeys(g, row, ks);
      if key in ks && key != "Name" && key != "UID" && (key !in g.cells || BlankCell(g.cells[key]))
      then key in r.cells && r.cells[key] == row.cells[key]
      else (key in r.cells <==> key in g.cells) && (key in g.cells ==> r.cells[key] == g.cells[key])
  {
    if ks != [] {
      var init := ks[..|ks| - 1];
      assert Distinct(init);
      MergeKeysField(g, row, init, key);
      if key == ks[|ks| - 1] {
        assert key !in init by {
          forall i | 0 <= i < |init|
            ensures init[i] != key
          {
            assert init[i] == ks[i];
          }
        }
      }
      assert ks == init + [ks[|ks| - 1]];
    }
  }

  /** Merging keeps every record well-formed. */
  lemma {:induction false} MergeKeysWellFormed(g: Record, row: Record, ks: seq<string>)
    requires WellFormed(g)
    requires forall k :: k in ks ==> k in row.cells
    ensures WellFormed(MergeKeys(g, row, ks))
  {
    if ks != [] {
      MergeKeysWellFormed(g, row, ks[..|ks| - 1]);
    }
  }

  // ---------------------------------------------------------------- grouping

  /** The `Name` keys of the rows, in order. */
  function Names(rows: seq<Record>): (ns: seq<string>)
    ensures |ns| == |rows| && forall i :: 0 <= i < |rows| ==> ns[i] == NameKey(rows[i])
  {
    seq(|rows|, i requires 0 <= i < |rows| => NameKey(rows[i]))
  }

  /** The position of the first occurrence of `x`. */
  function FirstIndex(s: seq<string>, x: string): (i: nat)
    requires x in s
    ensures i < |s| && s[i] == x && forall j :: 0 <= j < i ==> s[j] != x
  {
    if s[0] == x then 0 else 1 + FirstIndex(s[1..], x)
  }

  lemma {:induction false} FirstIndexAppend(s: seq<string>, y: string, x: string)
    requires x in s + [y]
    ensures x in s ==> FirstIndex(s + [y], x) == FirstIndex(s, x)
    ensures x !in s ==> FirstIndex(s + [y], x) == |s|
  {
    if x in s {
      var i := FirstIndex(s, x);
      var j := FirstIndex(s + [y], x);
      assert (s + [y])[i] == x;
      assert j <= i;
      assert s[j] == x;
    } else {
      assert (s + [y])[|s|] == x;
    }
  }

  /** `order` lists each of `names` exactly once, in order of first appearance. */
  ghost predicate FirstAppearanceOrder(order: seq<string>, names: seq<string>)
  {
    && (forall x :: x in order <==> x in names)
    && Distinct(order)
    && (forall a, b :: 0 <= a < b < |order| ==> FirstIndex(names, order[a]) < FirstIndex(names, order[b]))
  }

  /** A name seen before leaves the order as it is. */
  lemma OrderKnownName(order: seq<string>, names: seq<string>, y: string)
    requires FirstAppearanceOrder(order, names)
    requires y in names
    ensures FirstAppearanceOrder(order, names + [y])
  {
    forall x | x in names
      ensures FirstIndex(names + [y], x) == FirstIndex(names, x)
    {
      FirstIndexAppend(names, y, x);
    }
  }

  /** A new name goes to the end of the order. */
  lemma OrderNewName(order: seq<string>, names: seq<string>, y: string)
    requires FirstAppearanceOrder(order, names)
    requires y !in names
    ensures FirstAppearanceOrder(order + [y], names + [y])
  {
    var o := order + [y];
    FirstIndexAppend(names, y, y);
    forall a, b | 0 <= a < b < |o|
      ensures o[a] != o[b]
      ensures FirstIndex(names + [y], o[a]) < FirstIndex(names + [y], o[b])
    {
      assert o[a] == order[a] && o[a] in names;
      FirstIndexAppend(names, y, o[a]);
      if b < |order| {
        assert o[b] == order[b];
        FirstIndexAppend(names, y, o[b]);
      }
    }
  }

  /** One merged record per distinct name, in the order of each name's first
      appearance among the rows. */
  lemma {:induction false} GroupOrder(rows: seq<Record>)
    requires forall r :: r in rows ==> WellFormed(r)
    ensures FirstAppearanceOrder(GroupState(rows).order, Names(rows))
  {
    if rows != [] {
      var init := rows[..|rows| - 1];
      var row := rows[|rows| - 1];
      assert row in rows;
      GroupOrder(init);
      assert GroupState(rows) == AddRow(GroupState(init), row);
      assert Names(rows) == Names(init) + [NameKey(row)];
      if NameKey(row) in Names(init) {
        OrderKnownName(GroupState(init).order, Names(init), NameKey(row));
      } else {
        OrderNewName(GroupState(init).order, Names(init), NameKey(row));
      }
    }
  }

  /** The first row with a given name, if any. */
  function FirstWith(rows: seq<Record>, x: string): (r: Option<Record>)
    ensures r.None? <==> x !in Names(rows)
    ensures r.Some? ==> r.value in rows && NameKey(r.value) == x
    ensures r.Some? ==> r.value == rows[FirstIndex(Names(rows), x)]
  {
    if rows == [] then None
    else
      var init, last := rows[..|rows| - 1], rows[|rows| - 1];
      var earlier := FirstWith(init, x);
      assert Names(rows) == Names(init) + [NameKey(last)];
      if earlier.Some? then
        FirstIndexAppend(Names(init), NameKey(last), x);
        earlier
      else if NameKey(last) == x then
        FirstIndexAppend(Names(init), NameKey(last), x);
        Some(last)
      else None
  }

  /** The values that the rows named `x` hold for `key`, in row order. */
  function ValuesOf(rows: seq<Record>, x: string, key: string): seq<string>
  {
    if rows == [] then []
    else
      var row := rows[|rows| - 1];
      ValuesOf(rows[..|rows| - 1], x, key) + (if NameKey(row) == x && key in row.cells then [row.cells[key]] else [])
  }

  /** The first value that is neither empty nor `'-'`; failing that, the last value. */
  function FirstKept(vals: seq<string>): string
    requires vals != []
  {
    if |vals| == 1 || !BlankCell(vals[0]) then vals[0] else FirstKept(vals[1..])
  }

  lemma {:induction false} FirstKeptAppend(vals: seq<string>, v: string)
    requires vals != []
    ensures FirstKept(vals + [v]) == if BlankCell(FirstKept(vals)) then v else FirstKept(vals)
  {
    if |vals| > 1 && BlankCell(vals[0]) {
      assert (vals + [v])[1..] == vals[1..] + [v];
      FirstKeptAppend(vals[1..], v);
    } else if |vals| == 1 && BlankCell(vals[0]) {
      assert (vals + [v])[1..] == [v];
    }
  }

  /** The groups are exactly the names that occur. */
  lemma KnownNames(rows: seq<Record>)
    requires forall r :: r in rows ==> WellFormed(r)
    ensures forall x :: x in GroupState(rows).byName <==> x in Names(rows)
  {
    GroupOrder(rows);
  }

  /** A group's `Name` and `UID` are those of its first row: later rows never
      change them, and a `UID` only later rows have is not added. */
  lemma {:induction false} IdentityFromFirstRow(rows: seq<Record>, x: string, key: string)
    requires forall r :: r in rows ==> WellFormed(r)
    requires x in Names(rows)
    requires key == "Name" || key == "UID"
    ensures x in GroupState(rows).byName
    ensures var g := GroupState(rows).byName[x];
      var first := FirstWith(rows, x).value;
      (key in g.cells <==> key in first.cells) && (key in first.cells ==> g.cells[key] == first.cells[key])
  {
    KnownNames(rows);
    var init := rows[..|rows| - 1];
    var row := rows[|rows| - 1];
    assert row in rows;
    var prev := GroupState(init);
    assert GroupState(rows) == AddRow(prev, row);
    FirstWithLast(rows, x);
    KnownNames(init);
    if x in Names(init) {
      IdentityFromFirstRow(init, x, key);
      if NameKey(row) == x {
        MergeKeysField(prev.byName[x], row, row.keys, key);
      }
    } else {
      assert GroupState(rows).byName[x] == row;
    }
  }

  /** The first row named `x` is the one among all but the last row, or else the last row. */
  lemma FirstWithLast(rows: seq<Record>, x: string)
    requires rows != []
    ensures var init, row := rows[..|rows| - 1], rows[|rows| - 1];
      && Names(rows) == Names(init) + [NameKey(row)]
      && FirstWith(rows, x) == (if x in Names(init) then FirstWith(init, x) else if NameKey(row) == x then Some(row) else None)
  {
  }

  /** Every merged record carries its group's name. */
  lemma NameOfGroup(rows: seq<Record>, x: string)
    requires forall r :: r in rows ==> WellFormed(r)
    requires x in Names(rows)
    ensures x in GroupState(rows).byName && NameKey(GroupState(rows).byName[x]) == x
  {
    IdentityFromFirstRow(rows, x, "Name");
  }

  /** A merged field and the values seen so far, related as `FirstKept` says. */
  ghost predicate FieldSettled(g: Record, key: string, vals: seq<string>)
  {
    (key in g.cells <==> vals != []) && (key in g.cells ==> g.cells[key] == FirstKept(vals))
  }

  /** Merging one more row of the group keeps a field settled on the values seen. */
  lemma FieldStep(g: Record, row: Record, key: string, vals: seq<string>)
    requires WellFormed(row)
    requires key != "Name" && key != "UID"
    requires FieldSettled(g, key, vals)
    ensures FieldSettled(MergeRow(g, row), key, vals + (if key in row.cells then [row.cells[key]] else []))
  {
    MergeKeysField(g, row, row.keys, key);
    if key in row.cells {
      if vals != [] {
        FirstKeptAppend(vals, row.cells[key]);
      } else {
        assert vals + [row.cells[key]] == [row.cells[key]];
      }
    } else {
      assert vals + [] == vals;
    }
  }

  /** A group after one more row: unchanged for another name, the row itself
      for a new name, the row merged in for a known name. */
  lemma GroupAt(rows: seq<Record>, x: string)
    requires forall r :: r in rows ==> WellFormed(r)
    requires rows != [] && x in GroupState(rows).byName
    ensures var init, row := rows[..|rows| - 1], rows[|rows| - 1];
      var prev := GroupState(init);
      && (NameKey(row) != x ==> x in prev.byName && GroupState(rows).byName[x] == prev.byName[x])
      && (NameKey(row) == x && x !in prev.byName ==> GroupState(rows).byName[x] == row)
      && (NameKey(row) == x && x in prev.byName ==> GroupState(rows).byName[x] == MergeRow(prev.byName[x], row))
  {
    assert rows[|rows| - 1] in rows;
    assert GroupState(rows) == AddRow(GroupState(rows[..|rows| - 1]), rows[|rows| - 1]);
  }

  /** A group started by a row holds that row's fields. */
  lemma FreshField(row: Record, key: string)
    ensures FieldSettled(row, key, if key in row.cells then [row.cells[key]] else [])
  {
  }

  /** Every other field of a group holds the first value its rows gave it that is
      neither empty nor `'-'`, or the last value when all were; it exists exactly
      when some row of the group has it. */
  lemma {:induction false} FieldFromRows(rows: seq<Record>, x: string, key: string)
    requires forall r :: r in rows ==> WellFormed(r)
    requires x in Names(rows)
    requires key != "Name" && key != "UID"
    ensures x in GroupState(rows).byName
    ensures FieldSettled(GroupState(rows).byName[x], key, ValuesOf(rows, x, key))
  {
    KnownNames(rows);
    var init := rows[..|rows| - 1];
    var row := rows[|rows| - 1];
    KnownNames(init);
    GroupAt(rows, x);
    var prev := GroupState(init);
    var vals := ValuesOf(init, x, key);
    assert ValuesOf(rows, x, key) == vals + (if NameKey(row) == x && key in row.cells then [row.cells[key]] else []);
    if x in prev.byName {
      FieldFromRows(init, x, key);
      if NameKey(row) == x {
        assert row in rows;
        FieldStep(prev.byName[x], row, key, vals);
      } else {
        assert vals + [] == vals;
      }
    } else {
      NoValuesBeforeName(init, x, key);
      FreshField(row, key);
    }
  }

  lemma {:induction false} NoValuesBeforeName(rows: seq<Record>, x: string, key: string)
    requires x !in Names(rows)
    ensures ValuesOf(rows, x, key) == []
  {
    if rows != [] {
      assert Names(rows) == Names(rows[..|rows| - 1]) + [NameKey(rows[|rows| - 1])];
      NoValuesBeforeName(rows[..|rows| - 1], x, key);
    }
  }

  /** Merged records are well-formed objects. */
  lemma {:induction false} GroupsWellFormed(rows: seq<Record>, x: string)
    requires forall r :: r in rows ==> WellFormed(r)
    requires x in GroupState(rows).byName
    ensures WellFormed(GroupState(rows).byName[x])
  {
    var init := rows[..|rows| - 1];
    var row := rows[|rows| - 1];
    assert row in rows;
    var prev := GroupState(init);
    assert GroupState(rows) == AddRow(prev, row);
    if x in prev.byName {
      GroupsWellFormed(init, x);
      if NameKey(row) == x {
        MergeKeysWellFormed(prev.byName[x], row, row.keys);
      }
    }
  }

  /** The merged log has one well-formed record per distinct name, named after
      its group, in the order in which the names first appear. */
  lemma MergedLog(rows: seq<Record>, merged: seq<Record>)
    requires forall r :: r in rows ==> WellFormed(r)
    requires var s := GroupState(rows);
      |merged| == |s.order| && forall k :: 0 <= k < |merged| ==> merged[k] == s.byName[s.order[k]]
    ensures FirstAppearanceOrder(Names(merged), Names(rows))
    ensures forall k :: 0 <= k < |merged| ==> WellFormed(merged[k])
  {
    var s := GroupState(rows);
    GroupOrder(rows);
    forall k | 0 <= k < |merged|
      ensures NameKey(merged[k]) == s.order[k] && WellFormed(merged[k])
    {
      NameOfGroup(rows, s.order[k]);
      GroupsWellFormed(rows, s.order[k]);
    }
    assert Names(merged) == s.order;
  }

  // ---------------------------------------------------------------- display

  /** `keys.filter(h => h !== 'UID')`. */
  function WithoutUid(keys: seq<string>): (r: seq<string>)
    ensures |r| <= |keys|
    ensures forall h :: h in r <==> h in keys && h != "UID"
  {
    if keys == [] then [] else (if keys[0] == "UID" then [] else [keys[0]]) + WithoutUid(keys[1..])
  }

  /** `WithoutUid` keeps the remaining keys in their order: it distributes over concatenation. */
  lemma {:induction false} WithoutUidAppend(a: seq<string>, b: seq<string>)
    ensures WithoutUid(a + b) == WithoutUid(a) + WithoutUid(b)
  {
    if a != [] {
      WithoutUidAppend(a[1..], b);
      assert (a + b)[0] == a[0] && (a + b)[1..] == a[1..] + b;
    } else {
      assert a + b == b;
    }
  }

  /** On a single key, `WithoutUid` drops it exactly when it is `UID`. */
  lemma WithoutUidSingle(k: string)
    ensures WithoutUid([k]) == if k == "UID" then [] else [k]
  {
    assert [k][1..] == [];
  }

  /** The table headers: the keys of the first merged record without `UID`, or none. */
  function Headers(logData: seq<Record>): (h: seq<string>)
    ensures logData == [] ==> h == []
    ensures logData != [] ==> forall x :: x in h <==> x in logData[0].keys && x != "UID"
  {
    if |logData| > 0 then WithoutUid(logData[0].keys) else []
  }

  /** Headers never repeat a key when the first record does not. */
  lemma {:induction false} WithoutUidDistinct(keys: seq<string>)
    requires Distinct(keys)
    ensures Distinct(WithoutUid(keys))
  {
    if keys != [] {
      WithoutUidDistinct(keys[1..]);
      var rest := WithoutUid(keys[1..]);
      var r := WithoutUid(keys);
      forall i | 0 <= i < |keys[1..]|
        ensures keys[1..][i] != keys[0]
      {
        assert keys[1..][i] == keys[i + 1];
      }
      if keys[0] == "UID" {
        assert r == rest;
      } else {
        assert keys[0] !in keys[1..];
        assert r == [keys[0]] + rest;
        assert r[0] == keys[0];
        forall i, j | 0 <= i < j < |r|
          ensures r[i] != r[j]
        {
          assert r[j] == rest[j - 1] && r[j] in rest;
          if i > 0 {
            assert r[i] == rest[i - 1];
          }
        }
      }
    }
  }

  /** The headers of a merged log: the keys of the first record in their order,
      with `UID` dropped, none of them twice. */
  lemma HeadersOfLog(rows: seq<Record>, merged: seq<Record>)
    requires forall r :: r in rows ==> WellFormed(r)
    requires var s := GroupState(rows);
      |merged| == |s.order| && forall k :: 0 <= k < |merged| ==> merged[k] == s.byName[s.order[k]]
    ensures var h := Headers(merged);
      && (merged == [] ==> h == [])
      && (merged != [] ==> h == WithoutUid(merged[0].keys))
      && Distinct(h)
  {
    if merged != [] {
      GroupsWellFormed(rows, GroupState(rows).order[0]);
      WithoutUidDistinct(merged[0].keys);
    }
  }

  /** A status cell as the mobile list shows it: the value and its CSS class. */
  datatype Shown = Shown(value: string, cls: string)

  /** `String(raw)` for a cell that may be missing. */
  function CellString(raw: Option<string>): string
  {
    if raw.Some? then raw.value else "undefined"
  }

  /** The status normaliser: P, A, H, the non-blank value itself, or `'-'`. */
  function NormalizeStatus(raw: Option<string>): (r: Shown)
    ensures var lower := Lower(CellString(raw));
      && (r.cls == "present" <==> raw == Some("P") || raw == Some("p") || lower == "present")
      && (r.cls == "absent" <==>
            r.cls != "present" && (raw == Some("A") || raw == Some("a") || lower == "absent"))
      && (r.cls == "holiday" <==>
            r.cls != "present" && r.cls != "absent" && (raw == Some("H") || lower == "holiday" || lower == "hol"))
    ensures r.cls in {"present", "absent", "holiday", ""}
    ensures r.cls == "present" <==> r.value == "P"
    ensures r.cls == "absent" <==> r.value == "A"
    ensures r.cls == "holiday" <==> r.value == "H"
    ensures r.cls == "" ==> r.value == "-" || (raw.Some? && r.value == raw.value && !IsBlank(raw.value))
  {
    var lower := Lower(CellString(raw));
    if raw == Some("P") || raw == Some("p") || lower == "present" then Shown("P", "present")
    else if raw == Some("A") || raw == Some("a") || lower == "absent" then Shown("A", "absent")
    else if raw == Some("H") || lower == "holiday" || lower == "hol" then Shown("H", "holiday")
    else if raw.Some? && !IsBlank(raw.value) then Shown(raw.value, "")
    else Shown("-", "")
  }

  /** The shown value is never blank, it is `'-'` exactly for a missing, blank or
      `'-'` cell, and it carries a class exactly when it is P, A or H. */
  lemma NormalizeStatusShape(raw: Option<string>)
    ensures var r := NormalizeStatus(raw);
      && r.value != "" && !IsBlank(r.value)
      && (r.value == "-" <==> raw.None? || IsBlank(raw.value) || raw == Some("-"))
      && (r.cls != "" <==> r.value in {"P", "A", "H"})
  {
    assert "P"[0] == 'P' && "A"[0] == 'A' && "H"[0] == 'H' && "-"[0] == '-';
    if raw == Some("-") {
      assert Lower("-") == "-";
    }
    if raw.Some? && IsBlank(raw.value) {
      BlankIsNoStatus(raw.value);
    }
  }

  /** A blank string lower-cases to a blank string, so it names no status. */
  lemma BlankIsNoStatus(s: string)
    requires IsBlank(s)
    ensures s != "P" && s != "p" && s != "A" && s != "a" && s != "H"
    ensures Lower(s) != "present" && Lower(s) != "absent" && Lower(s) != "holiday" && Lower(s) != "hol"
  {
    if |s| > 0 {
      assert IsJsWhitespace(s[0]);
      assert LowerChar(s[0]) == s[0];
    }
  }

  /** Normalising a shown value again changes nothing. */
  lemma NormalizeIdempotent(raw: Option<string>)
    ensures NormalizeStatus(Some(NormalizeStatus(raw).value)) == NormalizeStatus(raw)
  {
    assert Lower("-") == "-";
    assert "-"[0] == '-';
  }

  /** A string that lower-cases letter by letter to `word` lower-cases to `word`. */
  lemma LowerSpelling(s: string, word: string)
    requires |s| == |word| && forall i :: 0 <= i < |s| ==> LowerChar(s[i]) == word[i]
    ensures Lower(s) == word
  {
  }

  /** Every capitalisation of `present` is shown as `P`. */
  lemma AnyCasePresent(s: string)
    requires |s| == 7 && forall i :: 0 <= i < 7 ==> LowerChar(s[i]) == "present"[i]
    ensures NormalizeStatus(Some(s)) == Shown("P", "present")
  {
    LowerSpelling(s, "present");
  }

  /** Every capitalisation of `absent` is shown as `A`. */
  lemma AnyCaseAbsent(s: string)
    requires |s| == 6 && forall i :: 0 <= i < 6 ==> LowerChar(s[i]) == "absent"[i]
    ensures NormalizeStatus(Some(s)) == Shown("A", "absent")
  {
    LowerSpelling(s, "absent");
  }

  /** Every capitalisation of `holiday` or `hol` is shown as `H`. */
  lemma AnyCaseHoliday(s: string, word: string)
    requires word == "holiday" || word == "hol"
    requires |s| == |word| && forall i :: 0 <= i < |s| ==> LowerChar(s[i]) == word[i]
    ensures NormalizeStatus(Some(s)) == Shown("H", "holiday")
  {
    LowerSpelling(s, word);
  }

  /** Capital and small `p` and `a` are both recognised, but only a capital `H`:
      a small `h` is shown as itself. */
  lemma LetterCase()
    ensures NormalizeStatus(Some("p")).value == "P" && NormalizeStatus(Some("a")).value == "A"
    ensures NormalizeStatus(Some("h")) == Shown("h", "")
  {
    assert Lower("h") == "h";
    assert "h"[0] == 'h';
  }
}
