/**
 * The SQL text the active record builds before handing it to PDO: the WHERE
 * clause of `find`, `findOne`, `aggregate` and `deleteAll` with its named
 * parameters, and the INSERT statements of `save` and `saveAll` with the
 * values their binding loops attach to each placeholder.
 *
 * An associative PHP array is an ordered list of pairs whose keys are
 * unique. A record is the list its class's `attributes()` returns and its
 * property values; a property that holds nothing reads as null.
 */
module ActiveRecords {
  import opened Php
  import opened Strings

  /** `getId`: the primary key column every active record uses. */
  const PRIMARY_KEY := "id"

  /** The text between the column list and the placeholder list in `save`. */
  const SAVE_VALUES := ") \n                VALUES ("

  /** The text between the column list and the tuples in `saveAll`. */
  const SAVE_ALL_VALUES := ")\n                VALUES "

  type Assoc = seq<(string, Value)>

  predicate DistinctKeys(arr: Assoc) {
    forall i, j :: 0 <= i < j < |arr| ==> arr[i].0 != arr[j].0
  }

  function Keys(arr: Assoc): (ks: seq<string>)
    ensures |ks| == |arr|
  {
    seq(|arr|, i requires 0 <= i < |arr| => arr[i].0)
  }

  /** `$arr[$key]` on an array with unique keys, None when the key is absent. */
  function Lookup(arr: Assoc, key: string): Option<Value> {
    if arr == [] then None
    else if arr[0].0 == key then Some(arr[0].1)
    else Lookup(arr[1..], key)
  }

  /** `$arr[$key] = $value`: an existing key keeps its place, a new one goes last. */
  function Put(arr: Assoc, key: string, value: Value): Assoc {
    if arr == [] then [(key, value)]
    else if arr[0].0 == key then [(key, value)] + arr[1..]
    else [arr[0]] + Put(arr[1..], key, value)
  }

  lemma {:induction false} PutNewKey(arr: Assoc, key: string, value: Value)
    requires key !in Keys(arr)
    ensures Put(arr, key, value) == arr + [(key, value)]
  {
    if arr != [] {
      assert arr[0].0 == Keys(arr)[0];
      assert Keys(arr[1..]) == Keys(arr)[1..];
      PutNewKey(arr[1..], key, value);
      assert [arr[0]] + (arr[1..] + [(key, value)]) == arr + [(key, value)];
    }
  }

  // ---------------------------------------------------------- WHERE clause

  /** `":$attr"`: the named placeholder of a column. */
  function Placeholder(attr: string): (p: string)
    ensures |p| == |attr| + 1 && p[0] == ':' && p[1..] == attr
  {
    ":" + attr
  }

  lemma PlaceholderInjective(a: string, b: string)
    requires Placeholder(a) == Placeholder(b)
    ensures a == b
  {
    assert a == Placeholder(a)[1..];
  }

  lemma PlaceholderIn(attrs: seq<string>, a: string)
    ensures Placeholder(a) in Placeholders(attrs) <==> a in attrs
  {
    if Placeholder(a) in Placeholders(attrs) {
      var j :| 0 <= j < |attrs| && Placeholders(attrs)[j] == Placeholder(a);
      PlaceholderInjective(attrs[j], a);
    }
    if a in attrs {
      var j :| 0 <= j < |attrs| && attrs[j] == a;
      assert Placeholders(attrs)[j] == Placeholder(a);
    }
  }

  /** `"$attr = :$attr"`. */
  function Condition(attr: string): string {
    attr + " = " + Placeholder(attr)
  }

  function Conditions(attrs: seq<string>): (cs: seq<string>)
    ensures |cs| == |attrs|
  {
    seq(|attrs|, i requires 0 <= i < |attrs| => Condition(attrs[i]))
  }

  function Placeholders(attrs: seq<string>): (ps: seq<string>)
    ensures |ps| == |attrs|
  {
    seq(|attrs|, i requires 0 <= i < |attrs| => Placeholder(attrs[i]))
  }

  /** The clause `buildWhereClause` returns: none without conditions, otherwise every key in order. */
  function WhereClause(where: Option<Assoc>): (r: string)
    ensures r == "" <==> where.None?
    ensures where == Some([]) ==> r == " WHERE "
  {
    if where.None? then "" else " WHERE " + Join(" AND ", Conditions(Keys(where.value)))
  }

  /** Each condition's value under its placeholder's name, in key order. */
  function Bound(where: Assoc): (r: Assoc)
    ensures |r| == |where|
  {
    seq(|where|, i requires 0 <= i < |where| => (Placeholder(where[i].0), where[i].1))
  }

  /** The parameters `buildWhereClause` returns. */
  function WhereParams(where: Option<Assoc>): Assoc {
    if where.None? then [] else Bound(where.value)
  }

  /** `buildWhereClause`; the `foreach` fills the parameter array one key at a time. */
  method BuildWhereClause(where: Option<Assoc>) returns (clause: string, params: Assoc)
    requires where.Some? ==> DistinctKeys(where.value)
    ensures clause == WhereClause(where) && params == WhereParams(where)
  {
    clause := "";
    params := [];
    if where.Some? {
      var w := where.value;
      clause := " WHERE " + Join(" AND ", Conditions(Keys(w)));
      var i := 0;
      while i < |w|
        invariant i <= |w|
        invariant params == Bound(w[..i])
      {
        var (key, value) := w[i];
        forall j | 0 <= j < i
          ensures Keys(params)[j] != Placeholder(key)
        {
          if Keys(params)[j] == Placeholder(key) {
            PlaceholderInjective(w[j].0, key);
          }
        }
        PutNewKey(params, Placeholder(key), value);
        params := Put(params, Placeholder(key), value);
        assert w[..i + 1] == w[..i] + [w[i]];
        i := i + 1;
      }
      assert w[..i] == w;
    }
  }

  /**
   * The clause and the parameters line up: the i-th condition compares the
   * i-th key with the i-th parameter's name, which carries the i-th value.
   */
  lemma ConditionsUseParams(where: Assoc)
    ensures var cs := Conditions(Keys(where)); var ps := WhereParams(Some(where));
      |cs| == |ps| == |where| &&
      forall i :: 0 <= i < |where| ==> cs[i] == where[i].0 + " = " + ps[i].0 && ps[i].1 == where[i].1
  {
  }

  /** Looking a placeholder up in the parameters finds the value of its key, and nothing else is bound. */
  lemma {:induction false} ParamsLookup(where: Assoc, name: string)
    ensures |name| > 0 && name[0] == ':' ==>
      Lookup(WhereParams(Some(where)), name) == Lookup(where, name[1..])
    ensures (|name| == 0 || name[0] != ':') ==> Lookup(WhereParams(Some(where)), name) == None
  {
    if where != [] {
      assert Bound(where)[1..] == Bound(where[1..]);
      ParamsLookup(where[1..], name);
      if |name| > 0 && name[0] == ':' {
        assert [':'] + name[1..] == name;
      }
    }
  }

  /** A further condition is appended after the earlier ones with ` AND `. */
  lemma AddedConditionComesLast(where: Assoc, key: string, value: Value)
    requires where != []
    ensures WhereClause(Some(where + [(key, value)])) ==
      WhereClause(Some(where)) + " AND " + key + " = :" + key
  {
    var w := where + [(key, value)];
    assert Conditions(Keys(w)) == Conditions(Keys(where)) + [Condition(key)];
    JoinSnoc(" AND ", Conditions(Keys(where)), Condition(key));
  }

  /** The clause for a single key. */
  lemma SingleCondition(key: string, value: Value)
    ensures WhereClause(Some([(key, value)])) == " WHERE " + key + " = :" + key
  {
    assert Conditions(Keys([(key, value)])) == [Condition(key)];
  }

  // ---------------------------------------------------------------- INSERT

  datatype Record = Record(attributes: seq<string>, props: map<string, Value>)

  /** `$record->{$attribute}`. */
  function Prop(r: Record, attribute: string): Value {
    if attribute in r.props then r.props[attribute] else Null
  }

  /** The values of a record's attributes, in `attributes()` order: the row it should become. */
  function Values(attrs: seq<string>, r: Record): (vs: seq<Value>)
    ensures |vs| == |attrs|
  {
    seq(|attrs|, j requires 0 <= j < |attrs| => Prop(r, attrs[j]))
  }

  /** `save`'s statement. */
  function SaveStatement(table: string, r: Record): string {
    "INSERT INTO " + table + " (" + Join(",", r.attributes) + SAVE_VALUES + Join(",", Placeholders(r.attributes)) + ")"
  }

  /**
   * The column list and the placeholder list of `save` name the same
   * attributes in the same order; when no attribute contains a comma, each
   * list splits back into exactly those names.
   */
  lemma {:induction false} SaveListsEachAttributeTwice(table: string, r: Record)
    requires |r.attributes| >= 1
    requires forall i :: 0 <= i < |r.attributes| ==> ',' !in r.attributes[i]
    ensures var columns := Join(",", r.attributes); var holders := Join(",", Placeholders(r.attributes));
      SaveStatement(table, r) == "INSERT INTO " + table + " (" + columns + SAVE_VALUES + holders + ")" &&
      Split(columns, ',') == r.attributes &&
      Split(holders, ',') == Placeholders(r.attributes) &&
      forall i :: 0 <= i < |r.attributes| ==> Split(holders, ',')[i] == ":" + Split(columns, ',')[i]
  {
    var ps := Placeholders(r.attributes);
    forall i | 0 <= i < |ps|
      ensures ',' !in ps[i]
    {
      assert ps[i] == [':'] + r.attributes[i];
    }
    SplitJoin(r.attributes, ',');
    SplitJoin(ps, ',');
  }

  /** PDO's named parameters after a series of `bindValue` calls. */
  type Bindings = map<string, Value>

  /** `foreach ($attributes as $attribute) bindValue(":$attribute", $record->{$attribute})`. */
  function BindRecord(bound: Bindings, attrs: seq<string>, r: Record): Bindings
    decreases |attrs|
  {
    if attrs == [] then bound
    else BindRecord(bound[Placeholder(attrs[0]) := Prop(r, attrs[0])], attrs[1..], r)
  }

  /** Binding a record sets each attribute's placeholder to its value and leaves other names alone. */
  lemma {:induction false} BindRecordSpec(bound: Bindings, attrs: seq<string>, r: Record)
    ensures var after := BindRecord(bound, attrs, r);
      (forall a :: a in attrs ==> Placeholder(a) in after && after[Placeholder(a)] == Prop(r, a)) &&
      (forall k :: k !in Placeholders(attrs) ==> (k in after <==> k in bound) && (k in bound ==> after[k] == bound[k]))
    decreases |attrs|
  {
    if attrs != [] {
      var next := bound[Placeholder(attrs[0]) := Prop(r, attrs[0])];
      BindRecordSpec(next, attrs[1..], r);
      assert Placeholders(attrs) == [Placeholder(attrs[0])] + Placeholders(attrs[1..]);
      var after := BindRecord(bound, attrs, r);
      forall a | a in attrs
        ensures Placeholder(a) in after && after[Placeholder(a)] == Prop(r, a)
      {
        PlaceholderIn(attrs[1..], a);
      }
    }
  }

  /** The columns `save` writes, read through the bindings. */
  function NamedRow(attrs: seq<string>, bound: Bindings): (row: seq<Value>)
    requires forall a :: a in attrs ==> Placeholder(a) in bound
    ensures |row| == |attrs|
  {
    seq(|attrs|, j requires 0 <= j < |attrs| => bound[Placeholder(attrs[j])])
  }

  /** `save` binds exactly the placeholders its statement names, each to the record's own value. */
  lemma SaveInsertsTheRecord(r: Record)
    ensures var bound := BindRecord(map[], r.attributes, r);
      (forall k :: k in bound <==> k in Placeholders(r.attributes)) &&
      (forall a :: a in r.attributes ==> Placeholder(a) in bound) &&
      NamedRow(r.attributes, bound) == Values(r.attributes, r)
  {
    BindRecordSpec(map[], r.attributes, r);
    var bound := BindRecord(map[], r.attributes, r);
    forall k | k in Placeholders(r.attributes)
      ensures k in bound
    {
      var j :| 0 <= j < |r.attributes| && Placeholders(r.attributes)[j] == k;
      assert r.attributes[j] in r.attributes;
    }
  }

  /** The `(:a,:b,...)` tuple `saveAll` repeats once per record. */
  function Tuple(holders: seq<string>): string {
    "(" + Join(",", holders) + ")"
  }

  function Repeat(t: string, n: nat): (ts: seq<string>)
    ensures |ts| == n && forall i :: 0 <= i < n ==> ts[i] == t
  {
    seq(n, i => t)
  }

  /**
   * `saveAll`'s statement, with the first record's attributes; an empty
   * list returns false before any statement is prepared.
   */
  function SaveAllStatement(table: string, records: seq<Record>): (r: Option<string>)
    ensures r.None? <==> records == []
  {
    if records == [] then None
    else
      var attrs := records[0].attributes;
      Some("INSERT INTO " + table + " (" + Join(",", attrs) + SAVE_ALL_VALUES +
        Join(",", Repeat(Tuple(Placeholders(attrs)), |records|)))
  }

  /** The nested binding loop of `saveAll`: every record binds the same names in turn. */
  function SaveAllBindings(attrs: seq<string>, records: seq<Record>): Bindings {
    if records == [] then map[]
    else BindRecord(SaveAllBindings(attrs, records[..|records| - 1]), attrs, records[|records| - 1])
  }

  /** The rows the records should become. */
  function RecordRows(attrs: seq<string>, records: seq<Record>): (rows: seq<seq<Value>>)
    ensures |rows| == |records|
  {
    seq(|records|, i requires 0 <= i < |records| => Values(attrs, records[i]))
  }

  /**
   * `saveAll` as written: every tuple names the same placeholders, and the
   * last record's values are the ones left bound to them, so every inserted
   * row carries the last record's values.
   */
  function SaveAllRows(records: seq<Record>): (rows: seq<seq<Value>>)
    requires records != []
    ensures |rows| == |records|
  {
    var attrs := records[0].attributes;
    var bound := SaveAllBindings(attrs, records);
    BindRecordSpec(SaveAllBindings(attrs, records[..|records| - 1]), attrs, records[|records| - 1]);
    seq(|records|, i requires 0 <= i < |records| => NamedRow(attrs, bound))
  }

  lemma SaveAllRowsRepeatLast(records: seq<Record>)
    requires records != []
    ensures var attrs := records[0].attributes;
      forall i :: 0 <= i < |records| ==> SaveAllRows(records)[i] == Values(attrs, records[|records| - 1])
  {
    var attrs := records[0].attributes;
    var last := records[|records| - 1];
    BindRecordSpec(SaveAllBindings(attrs, records[..|records| - 1]), attrs, last);
    var bound := SaveAllBindings(attrs, records);
    assert NamedRow(attrs, bound) == Values(attrs, last) by {
      forall j | 0 <= j < |attrs|
        ensures NamedRow(attrs, bound)[j] == Values(attrs, last)[j]
      {
        assert attrs[j] in attrs;
      }
    }
  }

  /** Two records with different names: the first row is inserted with the second record's name. */
  lemma SaveAllLosesFirstRecord()
    ensures var first := Record(["name"], map["name" := Str("a")]);
      var second := Record(["name"], map["name" := Str("b")]);
      SaveAllRows([first, second])[0] != RecordRows(["name"], [first, second])[0]
  {
    var first := Record(["name"], map["name" := Str("a")]);
    var second := Record(["name"], map["name" := Str("b")]);
    SaveAllRowsRepeatLast([first, second]);
    assert SaveAllRows([first, second])[0] == Values(["name"], second);
    assert Values(["name"], second)[0] == Str("b");
    assert RecordRows(["name"], [first, second])[0][0] == Str("a");
  }

  // --------------------------------------------- saveAll with positional values

  /**
   * The corrected `saveAll`: each tuple is `(?,?,...)` and the values are
   * bound by position, record after record.
   */
  function SaveAllPositional(table: string, records: seq<Record>): (r: Option<(string, seq<Value>)>)
    ensures r.None? <==> records == []
  {
    if records == [] then None
    else
      var attrs := records[0].attributes;
      var marks := seq(|attrs|, j => "?");
      Some(("INSERT INTO " + table + " (" + Join(",", attrs) + SAVE_ALL_VALUES +
        Join(",", Repeat(Tuple(marks), |records|)), Flatten(attrs, records)))
  }

  /** The positional values: each record's attributes in order, record after record. */
  function Flatten(attrs: seq<string>, records: seq<Record>): (vs: seq<Value>)
    ensures |vs| == |records| * |attrs|
  {
    if records == [] then []
    else
      var rest := Flatten(attrs, records[1..]);
      assert |records| * |attrs| == |attrs| + (|records| - 1) * |attrs|;
      Values(attrs, records[0]) + rest
  }

  /** The rows a statement with `count` tuples of `width` positional marks inserts. */
  function PositionalRows(values: seq<Value>, width: nat, count: nat): (rows: seq<seq<Value>>)
    requires |values| == count * width
    ensures |rows| == count
  {
    if count == 0 then []
    else
      assert count * width == width + (count - 1) * width;
      [values[..width]] + PositionalRows(values[width..], width, count - 1)
  }

  /** With positional values every record becomes its own row, in order. */
  lemma {:induction false} PositionalInsertsEachRecord(attrs: seq<string>, records: seq<Record>)
    ensures PositionalRows(Flatten(attrs, records), |attrs|, |records|) == RecordRows(attrs, records)
  {
    if records != [] {
      PositionalInsertsEachRecord(attrs, records[1..]);
      var vs := Flatten(attrs, records);
      assert vs[..|attrs|] == Values(attrs, records[0]);
      assert vs[|attrs|..] == Flatten(attrs, records[1..]);
      assert RecordRows(attrs, records) == [Values(attrs, records[0])] + RecordRows(attrs, records[1..]);
    }
  }

  /** The corrected `saveAll` inserts exactly the given records. */
  lemma SaveAllPositionalInsertsRecords(table: string, records: seq<Record>)
    requires records != []
    ensures var attrs := records[0].attributes;
      var r := SaveAllPositional(table, records);
      r.Some? && PositionalRows(r.value.1, |attrs|, |records|) == RecordRows(attrs, records)
  {
    PositionalInsertsEachRecord(records[0].attributes, records);
  }
}
