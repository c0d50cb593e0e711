/**
 Unique constraints (src/unique.rs): a forward table from constraint keys to rows and a reverse table
 from rows to their keys, kept with every transaction. Reading a value out of a row is a parameter.
 */
module UniqueIndex {
  import opened Prelude
  import opened ChangeCodec
  import opened RowTables

  /** One constraint: the paths whose values together must be unique. */
  type Unique = seq<Path>

  /** The key of a row under the `index`-th constraint of its table. */
  datatype UniqueKey = UniqueKey(table: Text, index: nat, values: seq<Bytes>)

  datatype UniqueError = BadPath | BadRow | Violation | DuplicateGroups(groups: nat)

  // ---- the keys of a row ----

  /** The values of the paths, up to the first that finds nothing; nothing at all then. */
  function Values(read: Reader, paths: Unique, row: Bytes): (r: Result<Option<seq<Bytes>>, UniqueError>)
    ensures r.Err? ==> r.error.BadPath? || r.error.BadRow?
  {
    if paths == [] then Ok(Some([]))
    else if !paths[0].scalar then Err(BadPath)
    else match read(row, paths[0])
      case Unreadable => Err(BadRow)
      case Nothing => Ok(None)
      case Value(v) =>
        var rest := Values(read, paths[1..], row);
        if rest.Err? then rest else if rest.value.None? then Ok(None) else Ok(Some([v] + rest.value.value))
  }

  function KeyUnder(read: Reader, table: Text, defs: seq<Unique>, i: nat, row: Bytes)
    : (r: Result<seq<UniqueKey>, UniqueError>)
    requires i < |defs|
    ensures r.Err? ==> r.error.BadPath? || r.error.BadRow?
  {
    var v := Values(read, defs[i], row);
    if v.Err? then Err(v.error)
    else if v.value.None? || v.value.value == [] then Ok([])
    else Ok([UniqueKey(table, i, v.value.value)])
  }

  /** The keys under the first `n` constraints. */
  function KeysUnder(read: Reader, table: Text, defs: seq<Unique>, n: nat, row: Bytes)
    : (r: Result<seq<UniqueKey>, UniqueError>)
    requires n <= |defs|
    ensures r.Err? ==> r.error.BadPath? || r.error.BadRow?
  {
    if n == 0 then Ok([])
    else
      var before := KeysUnder(read, table, defs, n - 1, row);
      if before.Err? then before
      else
        var last := KeyUnder(read, table, defs, n - 1, row);
        if last.Err? then last else Ok(before.value + last.value)
  }

  function Keys(read: Reader, table: Text, defs: seq<Unique>, row: Bytes): Result<seq<UniqueKey>, UniqueError> {
    KeysUnder(read, table, defs, |defs|, row)
  }

  lemma {:induction false} KeysAreOwn(read: Reader, table: Text, defs: seq<Unique>, n: nat, row: Bytes)
    requires n <= |defs| && KeysUnder(read, table, defs, n, row).Ok?
    ensures var ks := KeysUnder(read, table, defs, n, row).value;
            && (forall k :: k in ks ==> k.table == table && k.index < n)
            && (forall i, j :: 0 <= i < j < |ks| ==> ks[i] != ks[j])
  {
    if n > 0 {
      KeysAreOwn(read, table, defs, n - 1, row);
    }
  }

  /** The values of one constraint, collected path by path. */
  method CollectValues(read: Reader, paths: Unique, row: Bytes) returns (r: Result<seq<Bytes>, UniqueError>)
    ensures var v := Values(read, paths, row);
            r == if v.Err? then Err(v.error) else Ok(if v.value.Some? then v.value.value else [])
  {
    var values: seq<Bytes> := [];
    var i := 0;
    PrefixedNone(Values(read, paths, row));
    assert paths[0..] == paths;
    while i < |paths|
      invariant i <= |paths|
      invariant Values(read, paths, row) == Prefixed(values, Values(read, paths[i..], row))
    {
      if !paths[i].scalar {
        return Err(BadPath);
      }
      match read(row, paths[i]) {
        case Unreadable => return Err(BadRow);
        case Nothing => return Ok([]);
        case Value(v) =>
          PrefixedMore(values, v, Values(read, paths[i + 1..], row));
          assert paths[i..][1..] == paths[i + 1..];
          values := values + [v];
      }
      i := i + 1;
    }
    assert values + [] == values;
    r := Ok(values);
  }

  function Prefixed(values: seq<Bytes>, rest: Result<Option<seq<Bytes>>, UniqueError>)
    : Result<Option<seq<Bytes>>, UniqueError>
  {
    if rest.Err? || rest.value.None? then rest else Ok(Some(values + rest.value.value))
  }

  lemma PrefixedNone(rest: Result<Option<seq<Bytes>>, UniqueError>)
    ensures Prefixed([], rest) == rest
  {
    if rest.Ok? && rest.value.Some? {
      assert [] + rest.value.value == rest.value.value;
    }
  }

  lemma PrefixedMore(values: seq<Bytes>, v: Bytes, rest: Result<Option<seq<Bytes>>, UniqueError>)
    ensures Prefixed(values, Prefixed([v], rest)) == Prefixed(values + [v], rest)
  {
    if rest.Ok? && rest.value.Some? {
      assert values + ([v] + rest.value.value) == (values + [v]) + rest.value.value;
    }
  }

  /** The keys of a row, constraint by constraint. */
  method CollectKeys(read: Reader, table: Text, defs: seq<Unique>, row: Bytes)
    returns (r: Result<seq<UniqueKey>, UniqueError>)
    ensures r == Keys(read, table, defs, row)
    ensures r.Ok? <==> forall i :: 0 <= i < |defs| ==> !Failing(read, defs[i], row)
    ensures r.Ok? ==> forall k :: k in r.value <==> HasKey(read, table, defs, |defs|, row, k)
  {
    KeysMean(read, table, defs, |defs|, row);
    var keys: seq<UniqueKey> := [];
    var i := 0;
    while i < |defs|
      invariant i <= |defs|
      invariant KeysUnder(read, table, defs, i, row) == Ok(keys)
    {
      var values := CollectValues(read, defs[i], row);
      if values.Err? {
        ErrorsStay(read, table, defs, i + 1, row);
        return Err(values.error);
      }
      assert keys + [] == keys;
      if values.value != [] {
        keys := keys + [UniqueKey(table, i, values.value)];
      }
      i := i + 1;
    }
    r := Ok(keys);
  }

  lemma {:induction false} ErrorsStay(read: Reader, table: Text, defs: seq<Unique>, n: nat, row: Bytes)
    requires n <= |defs| && KeysUnder(read, table, defs, n, row).Err?
    ensures Keys(read, table, defs, row) == KeysUnder(read, table, defs, n, row)
    decreases |defs| - n
  {
    if n < |defs| {
      ErrorsStay(read, table, defs, n + 1, row);
    }
  }

  // ---- what the index must be ----

  type Forward = map<UniqueKey, Text>

  type Reverse = map<RowId, seq<UniqueKey>>

  type Definitions = map<Text, seq<Unique>>

  function RowKeys(read: Reader, defs: Definitions, id: RowId, row: Bytes): Result<seq<UniqueKey>, UniqueError> {
    if id.table in defs then Keys(read, id.table, defs[id.table], row) else Ok([])
  }

  ghost predicate Readable(read: Reader, defs: Definitions, rows: Rows) {
    forall id :: id in rows ==> RowKeys(read, defs, id, rows[id]).Ok?
  }

  ghost predicate Holds(read: Reader, defs: Definitions, rows: Rows, id: RowId, k: UniqueKey) {
    id in rows && RowKeys(read, defs, id, rows[id]).Ok? && k in RowKeys(read, defs, id, rows[id]).value
  }

  /** Every row can be read, and no two hold the same key. */
  ghost predicate Clean(read: Reader, defs: Definitions, rows: Rows) {
    Readable(read, defs, rows) && forall a, b, k :: Holds(read, defs, rows, a, k) && Holds(read, defs, rows, b, k) ==>
      a == b
  }

  predicate HasKeys(read: Reader, defs: Definitions, rows: Rows, id: RowId) {
    id in rows && RowKeys(read, defs, id, rows[id]).Ok? && RowKeys(read, defs, id, rows[id]).value != []
  }

  /** The reverse table built from scratch. */
  function Rebuilt(read: Reader, defs: Definitions, rows: Rows): Reverse {
    map id | id in rows && HasKeys(read, defs, rows, id) :: RowKeys(read, defs, id, rows[id]).value
  }

  /** The two tables say the same. */
  ghost predicate Consistent(forward: Forward, reverse: Reverse) {
    && (forall id, k :: id in reverse && k in reverse[id] ==>
      k.table == id.table && k in forward && forward[k] == id.key)
    && (forall k :: k in forward ==> RowId(k.table, forward[k]) in reverse && k in reverse[RowId(k.table, forward[k])])
  }

  /** The two tables are those of `rows`. */
  ghost predicate Indexed(read: Reader, defs: Definitions, rows: Rows, forward: Forward, reverse: Reverse) {
    Readable(read, defs, rows) && Consistent(forward, reverse) && reverse == Rebuilt(read, defs, rows)
  }

  // ---- what that means for the rows ----

  /** The paths find exactly these values in the row. */
  ghost predicate Finds(read: Reader, paths: Unique, row: Bytes, values: seq<Bytes>) {
    |values| == |paths| && forall i :: 0 <= i < |paths| ==> paths[i].scalar && read(row, paths[i]) == Value(values[i])
  }

  /** Up to path `i` all is found. */
  ghost predicate FoundTo(read: Reader, paths: Unique, row: Bytes, i: nat) {
    i <= |paths| && forall j :: 0 <= j < i ==> paths[j].scalar && read(row, paths[j]).Value?
  }

  /** The first path that finds no value cannot be used at all, or not on this row. */
  ghost predicate Fails(read: Reader, paths: Unique, row: Bytes, i: nat) {
    i < |paths| && FoundTo(read, paths, row, i) && (!paths[i].scalar || read(row, paths[i]).Unreadable?)
  }

  ghost predicate Failing(read: Reader, paths: Unique, row: Bytes) {
    exists i: nat :: Fails(read, paths, row, i)
  }

  lemma {:induction false} ValuesMean(read: Reader, paths: Unique, row: Bytes)
    ensures Values(read, paths, row).Err? <==> Failing(read, paths, row)
    ensures forall vs :: Values(read, paths, row) == Ok(Some(vs)) <==> Finds(read, paths, row, vs)
  {
    if paths == [] {
      forall vs ensures Finds(read, paths, row, vs) <==> vs == [] {
      }
    } else {
      ValuesMean(read, paths[1..], row);
      FailingNext(read, paths, row);
      forall vs ensures Values(read, paths, row) == Ok(Some(vs)) <==> Finds(read, paths, row, vs) {
        FindsNext(read, paths, row, vs);
        if vs != [] {
          assert vs == [vs[0]] + vs[1..];
        }
        var rest := Values(read, paths[1..], row);
        if rest.Ok? && rest.value.Some? && vs != [] {
          assert vs[0..1] + rest.value.value == vs <==> rest.value.value == vs[1..];
        }
      }
    }
  }

  lemma FailingNext(read: Reader, paths: Unique, row: Bytes)
    requires paths != []
    ensures Failing(read, paths, row) <==>
            !paths[0].scalar || read(row, paths[0]).Unreadable?
            || (read(row, paths[0]).Value? && Failing(read, paths[1..], row))
  {
    var rest := paths[1..];
    if i: nat :| Fails(read, paths, row, i) {
      if i > 0 {
        assert paths[0].scalar && read(row, paths[0]).Value?;
        assert Fails(read, rest, row, i - 1);
      }
    }
    if !paths[0].scalar || read(row, paths[0]).Unreadable? {
      assert Fails(read, paths, row, 0);
    } else if read(row, paths[0]).Value? && Failing(read, rest, row) {
      var i: nat :| Fails(read, rest, row, i);
      assert forall j :: 0 < j < |paths| ==> paths[j] == rest[j - 1];
      assert Fails(read, paths, row, i + 1);
    }
  }

  lemma FindsNext(read: Reader, paths: Unique, row: Bytes, values: seq<Bytes>)
    requires paths != []
    ensures Finds(read, paths, row, values) <==>
            values != [] && paths[0].scalar && read(row, paths[0]) == Value(values[0])
            && Finds(read, paths[1..], row, values[1..])
  {
    if values != [] && paths[0].scalar && read(row, paths[0]) == Value(values[0])
       && Finds(read, paths[1..], row, values[1..])
    {
      forall i | 0 <= i < |paths| ensures paths[i].scalar && read(row, paths[i]) == Value(values[i]) {
        assert i > 0 ==> paths[i] == paths[1..][i - 1] && values[i] == values[1..][i - 1];
      }
    }
  }

  /** A row has a key under a constraint exactly if every path of it finds a value, and the key is these values. */
  ghost predicate HasKey(read: Reader, table: Text, defs: seq<Unique>, n: nat, row: Bytes, k: UniqueKey)
    requires n <= |defs|
  {
    k.table == table && k.index < n && defs[k.index] != [] && Finds(read, defs[k.index], row, k.values)
  }

  lemma {:induction false} KeysMean(read: Reader, table: Text, defs: seq<Unique>, n: nat, row: Bytes)
    requires n <= |defs|
    ensures var ks := KeysUnder(read, table, defs, n, row);
            && (ks.Ok? <==> forall i :: 0 <= i < n ==> !Failing(read, defs[i], row))
            && (ks.Ok? ==> forall k :: k in ks.value <==> HasKey(read, table, defs, n, row, k))
  {
    if n > 0 {
      KeysMean(read, table, defs, n - 1, row);
      ValuesMean(read, defs[n - 1], row);
      var ks := KeysUnder(read, table, defs, n, row);
      if ks.Ok? {
        forall k ensures k in ks.value <==> HasKey(read, table, defs, n, row, k) {
          LastKey(read, table, defs, n, row, k);
        }
      }
    }
  }

  lemma LastKey(read: Reader, table: Text, defs: seq<Unique>, n: nat, row: Bytes, k: UniqueKey)
    requires 0 < n <= |defs| && KeyUnder(read, table, defs, n - 1, row).Ok?
    ensures k in KeyUnder(read, table, defs, n - 1, row).value <==>
            HasKey(read, table, defs, n, row, k) && k.index == n - 1
  {
    ValuesMean(read, defs[n - 1], row);
  }

  /** Two rows of a table agree in every value of one of its constraints. */
  ghost predicate Agree(read: Reader, defs: Definitions, rows: Rows, a: RowId, b: RowId, i: nat, values: seq<Bytes>) {
    && a in rows && b in rows && a.table == b.table && a.table in defs
    && i < |defs[a.table]| && defs[a.table][i] != []
    && Finds(read, defs[a.table][i], rows[a], values) && Finds(read, defs[a.table][i], rows[b], values)
  }

  ghost predicate NoFailing(read: Reader, defs: Definitions, rows: Rows, id: RowId)
    requires id in rows
  {
    id.table in defs ==> forall i :: 0 <= i < |defs[id.table]| ==> !Failing(read, defs[id.table][i], rows[id])
  }

  /** Every row can be read, and no two different rows agree in all values of a constraint. */
  ghost predicate AllDistinct(read: Reader, defs: Definitions, rows: Rows) {
    && (forall id :: id in rows ==> NoFailing(read, defs, rows, id))
    && (forall a, b, i, values :: Agree(read, defs, rows, a, b, i, values) ==> a == b)
  }

  lemma HoldsMeans(read: Reader, defs: Definitions, rows: Rows, id: RowId, k: UniqueKey)
    requires id in rows && NoFailing(read, defs, rows, id)
    ensures RowKeys(read, defs, id, rows[id]).Ok?
    ensures Holds(read, defs, rows, id, k) <==>
            id.table in defs && HasKey(read, id.table, defs[id.table], |defs[id.table]|, rows[id], k)
  {
    if id.table in defs {
      KeysMean(read, id.table, defs[id.table], |defs[id.table]|, rows[id]);
    }
  }

  lemma ReadableMeans(read: Reader, defs: Definitions, rows: Rows)
    ensures Readable(read, defs, rows) <==> forall id :: id in rows ==> NoFailing(read, defs, rows, id)
  {
    forall id | id in rows ensures RowKeys(read, defs, id, rows[id]).Ok? <==> NoFailing(read, defs, rows, id) {
      if id.table in defs {
        KeysMean(read, id.table, defs[id.table], |defs[id.table]|, rows[id]);
      }
    }
  }

  lemma CleanMeans(read: Reader, defs: Definitions, rows: Rows)
    ensures Clean(read, defs, rows) <==> AllDistinct(read, defs, rows)
  {
    ReadableMeans(read, defs, rows);
    if Readable(read, defs, rows) {
      if Clean(read, defs, rows) {
        forall a, b, i, values | Agree(read, defs, rows, a, b, i, values) ensures a == b {
          AgreeHold(read, defs, rows, a, b, i, values);
        }
      }
      if AllDistinct(read, defs, rows) {
        forall a, b, k | Holds(read, defs, rows, a, k) && Holds(read, defs, rows, b, k) ensures a == b {
          HoldAgree(read, defs, rows, a, b, k);
        }
      }
    }
  }

  lemma AgreeHold(read: Reader, defs: Definitions, rows: Rows, a: RowId, b: RowId, i: nat, values: seq<Bytes>)
    requires Agree(read, defs, rows, a, b, i, values)
    requires NoFailing(read, defs, rows, a) && NoFailing(read, defs, rows, b)
    ensures var k := UniqueKey(a.table, i, values);
            Holds(read, defs, rows, a, k) && Holds(read, defs, rows, b, k)
  {
    var k := UniqueKey(a.table, i, values);
    HoldsMeans(read, defs, rows, a, k);
    HoldsMeans(read, defs, rows, b, k);
  }

  lemma HoldAgree(read: Reader, defs: Definitions, rows: Rows, a: RowId, b: RowId, k: UniqueKey)
    requires Holds(read, defs, rows, a, k) && Holds(read, defs, rows, b, k)
    requires NoFailing(read, defs, rows, a) && NoFailing(read, defs, rows, b)
    ensures Agree(read, defs, rows, a, b, k.index, k.values)
  {
    HoldsMeans(read, defs, rows, a, k);
    HoldsMeans(read, defs, rows, b, k);
  }

  /** A row that lacks a value of a constraint clashes with none under it. */
  lemma LackingNeverClashes(read: Reader, defs: Definitions, rows: Rows, a: RowId, b: RowId, i: nat, j: nat,
                            values: seq<Bytes>)
    requires a in rows && a.table in defs && i < |defs[a.table]| && j < |defs[a.table][i]|
    requires !read(rows[a], defs[a.table][i][j]).Value?
    ensures !Agree(read, defs, rows, a, b, i, values)
  {
  }

  /** The reverse table determines the forward table. */
  lemma ForwardIsDetermined(a: Forward, b: Forward, reverse: Reverse)
    requires Consistent(a, reverse) && Consistent(b, reverse)
    ensures a == b
  {
    forall k | k in a ensures k in b && a[k] == b[k] {
      assert k in reverse[RowId(k.table, a[k])];
    }
    forall k | k in b ensures k in a {
      assert k in reverse[RowId(k.table, b[k])];
    }
  }

  lemma HeldIsInReverse(read: Reader, defs: Definitions, rows: Rows, id: RowId, k: UniqueKey)
    requires Holds(read, defs, rows, id, k)
    ensures id in Rebuilt(read, defs, rows) && k in Rebuilt(read, defs, rows)[id]
  {
  }

  /** There is an index of `rows` exactly when they are clean. */
  lemma IndexedIsClean(read: Reader, defs: Definitions, rows: Rows, forward: Forward, reverse: Reverse)
    requires Indexed(read, defs, rows, forward, reverse)
    ensures Clean(read, defs, rows)
  {
    forall a, b, k | Holds(read, defs, rows, a, k) && Holds(read, defs, rows, b, k) ensures a == b {
      HeldIsInReverse(read, defs, rows, a, k);
      HeldIsInReverse(read, defs, rows, b, k);
      assert a == RowId(k.table, forward[k]) && b == RowId(k.table, forward[k]);
    }
  }

  // ---- one row ----

  function WithoutKeys(forward: Forward, ks: seq<UniqueKey>): Forward {
    if ks == [] then forward else WithoutKeys(forward, ks[..|ks| - 1]) - {ks[|ks| - 1]}
  }

  function WithKeys(forward: Forward, ks: seq<UniqueKey>, row: Text): Forward {
    if ks == [] then forward else WithKeys(forward, ks[..|ks| - 1], row)[ks[|ks| - 1] := row]
  }

  lemma {:induction false} WithoutKeysIs(forward: Forward, ks: seq<UniqueKey>)
    ensures WithoutKeys(forward, ks) == map k | k in forward && k !in ks :: forward[k]
  {
    if ks != [] {
      WithoutKeysIs(forward, ks[..|ks| - 1]);
      assert ks == ks[..|ks| - 1] + [ks[|ks| - 1]];
    }
  }

  lemma {:induction false} WithKeysIs(forward: Forward, ks: seq<UniqueKey>, row: Text)
    ensures var w := WithKeys(forward, ks, row);
            && (forall k :: k in w <==> k in forward || k in ks)
            && (forall k :: k in w ==> w[k] == if k in ks then row else forward[k])
  {
    if ks != [] {
      WithKeysIs(forward, ks[..|ks| - 1], row);
      assert ks == ks[..|ks| - 1] + [ks[|ks| - 1]];
    }
  }

  /** The next key of a row that is not in the index is taken exactly if another row has it. */
  lemma OtherRowsOnly(forward: Forward, reverse: Reverse, id: RowId, ks: seq<UniqueKey>, i: nat)
    requires Consistent(forward, reverse) && id !in reverse && i < |ks| && ks[i].table == id.table
    requires forall j :: 0 <= j < i ==> ks[j] != ks[i]
    ensures var now := WithKeys(forward, ks[..i], id.key);
            ks[i] in forward <==> ks[i] in now && now[ks[i]] != id.key
    ensures ks[i] !in forward ==> ks[i] !in WithKeys(forward, ks[..i], id.key)
  {
    WithKeysIs(forward, ks[..i], id.key);
    assert ks[i] !in ks[..i];
    if ks[i] in forward {
      assert RowId(ks[i].table, forward[ks[i]]) in reverse;
    }
  }

  lemma RemoveKeeps(forward: Forward, reverse: Reverse, id: RowId)
    requires Consistent(forward, reverse) && id in reverse
    ensures Consistent(WithoutKeys(forward, reverse[id]), reverse - {id})
  {
    WithoutKeysIs(forward, reverse[id]);
  }

  lemma AddKeeps(forward: Forward, reverse: Reverse, id: RowId, ks: seq<UniqueKey>)
    requires Consistent(forward, reverse) && id !in reverse && ks != []
    requires forall k :: k in ks ==> k.table == id.table && k !in forward
    ensures Consistent(WithKeys(forward, ks, id.key), reverse[id := ks])
  {
    WithKeysIs(forward, ks, id.key);
    var f, r := WithKeys(forward, ks, id.key), reverse[id := ks];
    forall i: RowId, k: UniqueKey | i in r && k in r[i] ensures k.table == i.table && k in f && f[k] == i.key {
      if i != id {
        assert i in reverse && k in reverse[i];
      }
    }
    forall k | k in f ensures RowId(k.table, f[k]) in r && k in r[RowId(k.table, f[k])] {
      if k in ks {
        assert RowId(k.table, f[k]) == id;
      } else {
        assert k in forward;
      }
    }
  }

  // ---- what a transaction touched ----

  /** The rows a transaction must index again. */
  ghost predicate Stale(defs: Definitions, effects: seq<ChangeKind>, rows: Rows, stale: set<RowId>) {
    forall id :: id in stale <==>
      id.table in defs && (Touches(effects, id) || (ResetsTable(effects, id.table) && id in rows))
  }

  /** The part of a reverse table outside `left`. */
  function Outside(reverse: Reverse, left: set<RowId>): Reverse {
    map id | id in reverse && id !in left :: reverse[id]
  }

  function WithoutTables(reverse: Reverse, tables: set<Text>): Reverse {
    map id | id in reverse && id.table !in tables :: reverse[id]
  }

  /** With the stale rows taken out, what is left is already right. */
  lemma OnlyStaleIsWrong(read: Reader, defs: Definitions, effects: seq<ChangeKind>, before: Rows, after: Rows,
                         resets: set<Text>, stale: set<RowId>)
    requires Accounts(effects, before, after) && Stale(defs, effects, after, stale)
    requires forall t :: t in resets <==> t in defs && ResetsTable(effects, t)
    ensures Outside(WithoutTables(Rebuilt(read, defs, before), resets), stale) ==
            Outside(Rebuilt(read, defs, after), stale)
  {
    var a, b := Outside(WithoutTables(Rebuilt(read, defs, before), resets), stale),
      Outside(Rebuilt(read, defs, after), stale);
    forall id ensures (id in a <==> id in b) && (id in a ==> a[id] == b[id]) {
      if id.table in defs && id !in stale {
        assert ResetsTable(effects, id.table) ==> id !in after;
        assert !ResetsTable(effects, id.table) ==> SameAt(before, after, id);
      }
    }
  }

  lemma ReadableRest(read: Reader, defs: Definitions, effects: seq<ChangeKind>, before: Rows, after: Rows,
                     stale: set<RowId>)
    requires Accounts(effects, before, after) && Stale(defs, effects, after, stale) && Readable(read, defs, before)
    requires forall id :: id in stale && id in after ==> RowKeys(read, defs, id, after[id]).Ok?
    ensures Readable(read, defs, after)
  {
    forall id | id in after ensures RowKeys(read, defs, id, after[id]).Ok? {
      if id !in stale && id.table in defs {
        assert SameAt(before, after, id);
      }
    }
  }

  /** A key already taken by another row of the target is a duplicate. */
  lemma TakenIsDuplicate(read: Reader, defs: Definitions, rows: Rows, left: set<RowId>, forward: Forward, id: RowId,
                         k: UniqueKey)
    requires Consistent(forward, Outside(Rebuilt(read, defs, rows), left))
    requires id in left && Holds(read, defs, rows, id, k) && k in forward
    ensures !Clean(read, defs, rows)
  {
    var other := RowId(k.table, forward[k]);
    assert other in Outside(Rebuilt(read, defs, rows), left);
    assert Holds(read, defs, rows, other, k);
  }

  lemma NextIndexed(read: Reader, defs: Definitions, rows: Rows, left: set<RowId>, id: RowId)
    requires id in left
    ensures var target := Rebuilt(read, defs, rows);
            Outside(target, left - {id}) ==
            if HasKeys(read, defs, rows, id)
            then Outside(target, left)[id := RowKeys(read, defs, id, rows[id]).value] else Outside(target, left)
  {
  }

  // ---- new constraints ----

  function TableIds(rows: Rows, table: Text): set<RowId> {
    set id | id in rows && id.table == table
  }

  function Defined(defs: Definitions, table: Text, uniques: seq<Unique>): Definitions {
    defs[table := uniques]
  }

  ghost predicate ReadableTable(read: Reader, defs: Definitions, rows: Rows, table: Text) {
    forall id :: id in TableIds(rows, table) ==> RowKeys(read, defs, id, rows[id]).Ok?
  }

  /** Two rows hold the key. */
  ghost predicate Shared(read: Reader, defs: Definitions, rows: Rows, ids: set<RowId>, k: UniqueKey) {
    exists a, b :: a in ids && b in ids && a != b && Holds(read, defs, rows, a, k) && Holds(read, defs, rows, b, k)
  }

  ghost predicate CleanTable(read: Reader, defs: Definitions, rows: Rows, table: Text) {
    ReadableTable(read, defs, rows, table) && forall k :: !Shared(read, defs, rows, TableIds(rows, table), k)
  }

  ghost function Holders(read: Reader, defs: Definitions, rows: Rows, ids: set<RowId>, k: UniqueKey): set<RowId> {
    set id | id in ids && Holds(read, defs, rows, id, k)
  }

  function Get(counts: map<UniqueKey, nat>, k: UniqueKey): nat {
    if k in counts then counts[k] else 0
  }

  function Bump(counts: map<UniqueKey, nat>, ks: seq<UniqueKey>): map<UniqueKey, nat> {
    if ks == [] then counts
    else
      var before := Bump(counts, ks[..|ks| - 1]);
      before[ks[|ks| - 1] := Get(before, ks[|ks| - 1]) + 1]
  }

  lemma {:induction false} BumpIs(counts: map<UniqueKey, nat>, ks: seq<UniqueKey>, k: UniqueKey)
    requires forall i, j :: 0 <= i < j < |ks| ==> ks[i] != ks[j]
    ensures Get(Bump(counts, ks), k) == Get(counts, k) + if k in ks then 1 else 0
  {
    if ks != [] {
      BumpIs(counts, ks[..|ks| - 1], k);
      assert ks == ks[..|ks| - 1] + [ks[|ks| - 1]];
      assert ks[|ks| - 1] !in ks[..|ks| - 1];
    }
  }

  ghost predicate Counted(read: Reader, defs: Definitions, rows: Rows, done: set<RowId>, counts: map<UniqueKey, nat>) {
    forall k :: Get(counts, k) == |Holders(read, defs, rows, done, k)|
  }

  lemma CountedNext(read: Reader, defs: Definitions, rows: Rows, done: set<RowId>, counts: map<UniqueKey, nat>,
                    id: RowId)
    requires Counted(read, defs, rows, done, counts) && id in rows && id !in done
    requires id.table in defs && RowKeys(read, defs, id, rows[id]).Ok?
    ensures Counted(read, defs, rows, done + {id}, Bump(counts, RowKeys(read, defs, id, rows[id]).value))
  {
    var ks := RowKeys(read, defs, id, rows[id]).value;
    KeysAreOwn(read, id.table, defs[id.table], |defs[id.table]|, rows[id]);
    forall k ensures Get(Bump(counts, ks), k) == |Holders(read, defs, rows, done + {id}, k)| {
      BumpIs(counts, ks, k);
      var was := Holders(read, defs, rows, done, k);
      assert Holders(read, defs, rows, done + {id}, k) == if k in ks then was + {id} else was;
    }
  }

  lemma TwoElements<T>(s: set<T>)
    ensures |s| > 1 <==> exists a, b :: a in s && b in s && a != b
  {
    if |s| > 1 {
      var a :| a in s;
      assert |s - {a}| > 0;
      var b :| b in s - {a};
    }
    if a, b :| a in s && b in s && a != b {
      assert {a, b} <= s && |{a, b}| == 2;
      Subset({a, b}, s);
    }
  }

  lemma {:induction false} Subset<T>(a: set<T>, b: set<T>)
    requires a <= b
    ensures |a| <= |b|
  {
    if a != {} {
      var x :| x in a;
      Subset(a - {x}, b - {x});
    }
  }

  lemma CountsFindShared(read: Reader, defs: Definitions, rows: Rows, ids: set<RowId>, counts: map<UniqueKey, nat>)
    requires Counted(read, defs, rows, ids, counts)
    ensures forall k :: k in counts && counts[k] > 1 <==> Shared(read, defs, rows, ids, k)
  {
    forall k ensures k in counts && counts[k] > 1 <==> Shared(read, defs, rows, ids, k) {
      var hs := Holders(read, defs, rows, ids, k);
      assert Get(counts, k) == |hs|;
      TwoElements(hs);
      if Shared(read, defs, rows, ids, k) {
        var a, b :| a in ids && b in ids && a != b && Holds(read, defs, rows, a, k) && Holds(read, defs, rows, b, k);
        assert a in hs && b in hs;
      }
    }
  }

  lemma NoneShared(read: Reader, defs: Definitions, rows: Rows, table: Text, shared: set<UniqueKey>)
    requires ReadableTable(read, defs, rows, table)
    requires forall k :: k in shared <==> Shared(read, defs, rows, TableIds(rows, table), k)
    ensures |shared| == 0 <==> CleanTable(read, defs, rows, table)
  {
    if |shared| > 0 {
      var k :| k in shared;
    }
  }

  lemma OtherTablesSame(read: Reader, defs: Definitions, table: Text, uniques: seq<Unique>, id: RowId, row: Bytes)
    requires id.table != table
    ensures RowKeys(read, Defined(defs, table, uniques), id, row) == RowKeys(read, defs, id, row)
  {
  }

  lemma HeldKeyIsOwn(read: Reader, defs: Definitions, rows: Rows, id: RowId, k: UniqueKey)
    requires Holds(read, defs, rows, id, k)
    ensures k.table == id.table
  {
    KeysAreOwn(read, id.table, defs[id.table], |defs[id.table]|, rows[id]);
  }

  /** New constraints that one table meets leave all tables clean. */
  lemma CleanRedefined(read: Reader, defs: Definitions, table: Text, uniques: seq<Unique>, rows: Rows)
    requires Clean(read, defs, rows) && CleanTable(read, Defined(defs, table, uniques), rows, table)
    ensures Clean(read, Defined(defs, table, uniques), rows)
  {
    var ds := Defined(defs, table, uniques);
    forall id | id in rows ensures RowKeys(read, ds, id, rows[id]).Ok? {
      if id.table != table {
        OtherTablesSame(read, defs, table, uniques, id, rows[id]);
      }
    }
    forall a, b, k | Holds(read, ds, rows, a, k) && Holds(read, ds, rows, b, k) ensures a == b {
      HeldKeyIsOwn(read, ds, rows, a, k);
      HeldKeyIsOwn(read, ds, rows, b, k);
      if a.table == table {
        assert a in TableIds(rows, table) && b in TableIds(rows, table);
        assert !Shared(read, ds, rows, TableIds(rows, table), k);
      } else {
        OtherTablesSame(read, defs, table, uniques, a, rows[a]);
        OtherTablesSame(read, defs, table, uniques, b, rows[b]);
        assert Holds(read, defs, rows, a, k) && Holds(read, defs, rows, b, k);
      }
    }
  }

  lemma RebuiltRedefined(read: Reader, defs: Definitions, table: Text, uniques: seq<Unique>, rows: Rows)
    ensures WithoutTables(Rebuilt(read, defs, rows), {table}) ==
            Outside(Rebuilt(read, Defined(defs, table, uniques), rows), TableIds(rows, table))
  {
    var ds := Defined(defs, table, uniques);
    forall id | id in rows && id.table != table
      ensures RowKeys(read, ds, id, rows[id]) == RowKeys(read, defs, id, rows[id])
    {
      OtherTablesSame(read, defs, table, uniques, id, rows[id]);
    }
  }

  lemma RebuiltUndefined(read: Reader, defs: Definitions, table: Text, rows: Rows)
    ensures WithoutTables(Rebuilt(read, defs, rows), {table}) == Rebuilt(read, defs - {table}, rows)
    ensures Readable(read, defs, rows) ==> Readable(read, defs - {table}, rows)
  {
    forall id: RowId, row: Bytes | id.table != table
      ensures RowKeys(read, defs - {table}, id, row) == RowKeys(read, defs, id, row)
    {
    }
  }

  predicate Scalar(uniques: seq<Unique>) {
    forall i, j :: 0 <= i < |uniques| && 0 <= j < |uniques[i]| ==> uniques[i][j].scalar
  }

  predicate Mentioned(configured: seq<(Text, seq<Unique>)>, t: Text) {
    exists i :: 0 <= i < |configured| && configured[i].0 == t
  }

  /** A configured constraint is as it was, or the rows of its table meet it. */
  ghost predicate Acceptable(read: Reader, was: Definitions, c: (Text, seq<Unique>), rows: Rows) {
    Scalar(c.1) && ((c.0 in was && was[c.0] == c.1) || CleanTable(read, Defined(was, c.0, c.1), rows, c.0))
  }

  /** The definitions after the first `n` configured ones. */
  function Configured(was: Definitions, configured: seq<(Text, seq<Unique>)>, n: nat): Definitions
    requires n <= |configured|
  {
    if n == 0 then map t | t in was && Mentioned(configured, t) :: was[t]
    else
      var before := Configured(was, configured, n - 1);
      var (t, uniques) := configured[n - 1];
      if t in was && was[t] == uniques then before else Defined(before, t, uniques)
  }

  /** Whether a table meets its constraints does not depend on those of the others. */
  lemma OnlyItsTable(read: Reader, a: Definitions, b: Definitions, table: Text, uniques: seq<Unique>, rows: Rows)
    ensures CleanTable(read, Defined(a, table, uniques), rows, table) <==>
            CleanTable(read, Defined(b, table, uniques), rows, table)
  {
    var x, y := Defined(a, table, uniques), Defined(b, table, uniques);
    forall id | id in TableIds(rows, table) ensures RowKeys(read, x, id, rows[id]) == RowKeys(read, y, id, rows[id]) {
    }
    forall k
      ensures Shared(read, x, rows, TableIds(rows, table), k) <==> Shared(read, y, rows, TableIds(rows, table), k)
    {
      forall id | id in TableIds(rows, table) ensures Holds(read, x, rows, id, k) <==> Holds(read, y, rows, id, k) {
      }
    }
  }

  /** A table is clean exactly if its rows are distinct under its own constraints. */
  lemma CleanTableMeans(read: Reader, defs: Definitions, table: Text, uniques: seq<Unique>, rows: Rows)
    ensures CleanTable(read, Defined(defs, table, uniques), rows, table) <==>
            AllDistinct(read, map[table := uniques], rows)
  {
    var one := Defined(map[], table, uniques);
    OnlyItsTable(read, defs, map[], table, uniques, rows);
    assert one == map[table := uniques];
    CleanMeans(read, one, rows);
    SingleTable(read, one, table, rows);
  }

  lemma SingleTable(read: Reader, defs: Definitions, table: Text, rows: Rows)
    requires defs.Keys == {table}
    ensures CleanTable(read, defs, rows, table) <==> Clean(read, defs, rows)
  {
    assert forall id :: id in rows && id.table != table ==> RowKeys(read, defs, id, rows[id]) == Ok([]);
    assert Readable(read, defs, rows) <==> ReadableTable(read, defs, rows, table);
    if CleanTable(read, defs, rows, table) {
      forall a, b, k | Holds(read, defs, rows, a, k) && Holds(read, defs, rows, b, k) ensures a == b {
        assert a in TableIds(rows, table) && b in TableIds(rows, table);
        assert !Shared(read, defs, rows, TableIds(rows, table), k);
      }
    }
  }

  /** When no table is configured twice, exactly the configured constraints stand afterwards. */
  lemma {:induction false} ConfiguredMeans(was: Definitions, configured: seq<(Text, seq<Unique>)>, n: nat)
    requires n <= |configured|
    requires forall i, j :: 0 <= i < j < |configured| ==> configured[i].0 != configured[j].0
    ensures var now := Configured(was, configured, n);
            && (forall i :: 0 <= i < n ==> configured[i].0 in now && now[configured[i].0] == configured[i].1)
            && (forall t :: t in now ==> Mentioned(configured, t))
            && (forall i :: n <= i < |configured| && configured[i].0 in was ==>
                  configured[i].0 in now && now[configured[i].0] == was[configured[i].0])
  {
    if n > 0 {
      ConfiguredMeans(was, configured, n - 1);
    } else {
      forall i | 0 <= i < |configured| ensures Mentioned(configured, configured[i].0) {
      }
    }
  }

  // ---- the tables in a write transaction ----

  class UniqueTx {
    var defs: Definitions
    var forward: Forward
    var reverse: Reverse

    constructor (defs: Definitions, forward: Forward, reverse: Reverse)
      ensures this.defs == defs && this.forward == forward && this.reverse == reverse
    {
      this.defs, this.forward, this.reverse := defs, forward, reverse;
    }

    /** Take a row out of both tables. */
    method Remove(id: RowId)
      requires Consistent(forward, reverse)
      modifies this`forward, this`reverse
      ensures Consistent(forward, reverse) && reverse == old(reverse) - {id}
    {
      if id in reverse {
        RemoveKeeps(forward, reverse, id);
        var ks := reverse[id];
        reverse := reverse - {id};
        DropKeys(ks);
      }
    }

    method DropKeys(ks: seq<UniqueKey>)
      modifies this`forward
      ensures forward == WithoutKeys(old(forward), ks)
    {
      var i := 0;
      while i < |ks|
        invariant i <= |ks|
        invariant forward == WithoutKeys(old(forward), ks[..i])
      {
        assert ks[..i + 1][..i] == ks[..i];
        forward := forward - {ks[i]};
        i := i + 1;
      }
      assert ks[..|ks|] == ks;
    }

    /** Put the keys of a row in, unless another row has one of them. */
    method PutKeys(id: RowId, ks: seq<UniqueKey>) returns (ok: bool)
      requires Consistent(forward, reverse) && id !in reverse
      requires forall k :: k in ks ==> k.table == id.table
      requires forall i, j :: 0 <= i < j < |ks| ==> ks[i] != ks[j]
      modifies this`forward
      ensures ok <==> forall k :: k in ks ==> k !in old(forward)
      ensures ok ==> forward == WithKeys(old(forward), ks, id.key)
    {
      var i := 0;
      while i < |ks|
        invariant i <= |ks|
        invariant forward == WithKeys(old(forward), ks[..i], id.key)
        invariant forall j :: 0 <= j < i ==> ks[j] !in old(forward)
      {
        assert ks[..i + 1][..i] == ks[..i];
        OtherRowsOnly(old(forward), reverse, id, ks, i);
        if ks[i] in forward && forward[ks[i]] != id.key {
          return false;
        }
        forward := forward[ks[i] := id.key];
        i := i + 1;
      }
      assert ks[..|ks|] == ks;
      ok := true;
    }

    method Insert(read: Reader, ds: Definitions, id: RowId, row: Bytes) returns (r: Result<(), UniqueError>)
      requires Consistent(forward, reverse) && id !in reverse && id.table in ds
      modifies this`forward, this`reverse
      ensures var ks := RowKeys(read, ds, id, row);
              if ks.Err? then r == Err(ks.error)
              else if exists k :: k in ks.value && k in old(forward) then r == Err(Violation)
              else r == Ok(()) && Consistent(forward, reverse)
                   && reverse == if ks.value == [] then old(reverse) else old(reverse)[id := ks.value]
    {
      var keys := CollectKeys(read, id.table, ds[id.table], row);
      if keys.Err? {
        return Err(keys.error);
      }
      KeysAreOwn(read, id.table, ds[id.table], |ds[id.table]|, row);
      var ok := PutKeys(id, keys.value);
      if !ok {
        return Err(Violation);
      }
      if keys.value != [] {
        AddKeeps(old(forward), reverse, id, keys.value);
        reverse := reverse[id := keys.value];
      }
      r := Ok(());
    }

    /** Take a whole table out. */
    method Clear(table: Text)
      requires Consistent(forward, reverse)
      modifies this`forward, this`reverse
      ensures Consistent(forward, reverse) && reverse == WithoutTables(old(reverse), {table})
    {
      var left := reverse.Keys;
      while left != {}
        invariant Consistent(forward, reverse)
        invariant forall id :: id in reverse <==> id in old(reverse) && (id.table != table || id in left)
        invariant forall id :: id in reverse ==> reverse[id] == old(reverse)[id]
        decreases |left|
      {
        var id :| id in left;
        left := left - {id};
        if id.table == table {
          Remove(id);
        }
      }
    }

    method ClearAll(tables: set<Text>)
      requires Consistent(forward, reverse)
      modifies this`forward, this`reverse
      ensures Consistent(forward, reverse) && reverse == WithoutTables(old(reverse), tables)
    {
      var left := tables;
      while left != {}
        invariant left <= tables
        invariant Consistent(forward, reverse)
        invariant reverse == WithoutTables(old(reverse), tables - left)
        decreases |left|
      {
        var t :| t in left;
        Clear(t);
        left := left - {t};
      }
    }

    method RemoveAll(ids: set<RowId>)
      requires Consistent(forward, reverse)
      modifies this`forward, this`reverse
      ensures Consistent(forward, reverse) && reverse == Outside(old(reverse), ids)
    {
      var left := ids;
      while left != {}
        invariant left <= ids
        invariant Consistent(forward, reverse)
        invariant reverse == Outside(old(reverse), ids - left)
        decreases |left|
      {
        var id :| id in left;
        Remove(id);
        left := left - {id};
      }
    }

    /** Index rows again, in any order, until all are in or one cannot be. */
    method InsertAll(read: Reader, ds: Definitions, rows: Rows, ids: set<RowId>) returns (r: Result<(), UniqueError>)
      requires Consistent(forward, reverse) && reverse == Outside(Rebuilt(read, ds, rows), ids)
      requires forall id :: id in ids ==> id.table in ds
      modifies this`forward, this`reverse
      ensures r.Ok? ==> Consistent(forward, reverse) && reverse == Rebuilt(read, ds, rows)
      ensures r.Ok? ==> forall id :: id in ids && id in rows ==> RowKeys(read, ds, id, rows[id]).Ok?
      ensures r.Err? ==> !Clean(read, ds, rows)
    {
      var left := ids;
      while left != {}
        invariant left <= ids
        invariant Consistent(forward, reverse) && reverse == Outside(Rebuilt(read, ds, rows), left)
        invariant forall id :: id in ids && id !in left && id in rows ==> RowKeys(read, ds, id, rows[id]).Ok?
        decreases |left|
      {
        var id :| id in left;
        NextIndexed(read, ds, rows, left, id);
        if id in rows {
          ghost var was := forward;
          r := Insert(read, ds, id, rows[id]);
          if r.Err? {
            if RowKeys(read, ds, id, rows[id]).Ok? {
              ghost var k :| k in RowKeys(read, ds, id, rows[id]).value && k in was;
              TakenIsDuplicate(read, ds, rows, left, was, id, k);
            }
            return;
          }
        }
        left := left - {id};
      }
      assert Outside(Rebuilt(read, ds, rows), {}) == Rebuilt(read, ds, rows);
      r := Ok(());
    }

    /** The rows and tables the effects name, as far as they have constraints. */
    method Gather(effects: seq<ChangeKind>) returns (changed: set<RowId>, resets: set<Text>)
      ensures forall id :: id in changed <==> id.table in defs && Touches(effects, id)
      ensures forall t :: t in resets <==> t in defs && ResetsTable(effects, t)
    {
      changed, resets := {}, {};
      var i := 0;
      while i < |effects|
        invariant i <= |effects|
        invariant forall id :: id in changed <==> id.table in defs && Touches(effects[..i], id)
        invariant forall t :: t in resets <==> t in defs && ResetsTable(effects[..i], t)
      {
        TouchesMore(effects, i);
        match effects[i] {
          case Upsert(t, k, _) => if t in defs { changed := changed + {RowId(t, k)}; }
          case Delete(t, k) => if t in defs { changed := changed + {RowId(t, k)}; }
          case TableReset(t, _) => if t in defs { resets := resets + {t}; }
          case BlobPut(_, _, _, _) =>
          case BlobDelete(_, _, _, _) =>
        }
        i := i + 1;
      }
      assert effects[..|effects|] == effects;
    }

    /**
     Bring the index to the rows a transaction leaves. It accepts exactly when they are clean, whatever
     the order in which rows are taken, and then both tables are those of the rows.
     */
    method Validate(read: Reader, effects: seq<ChangeKind>, rows: Rows, ghost before: Rows)
      returns (r: Result<(), UniqueError>)
      requires Indexed(read, defs, before, forward, reverse) && Accounts(effects, before, rows)
      modifies this`forward, this`reverse
      ensures r.Ok? <==> Clean(read, defs, rows)
      ensures r.Ok? <==> AllDistinct(read, defs, rows)
      ensures r.Ok? ==> Indexed(read, defs, rows, forward, reverse)
    {
      CleanMeans(read, defs, rows);
      if |defs| == 0 {
        assert Rebuilt(read, defs, rows) == map[] && Rebuilt(read, defs, before) == map[];
        IndexedIsClean(read, defs, rows, forward, reverse);
        return Ok(());
      }
      var changed, resets := Gather(effects);
      ClearAll(resets);
      var stale := changed + (set id | id in rows && id.table in resets);
      OnlyStaleIsWrong(read, defs, effects, before, rows, resets, stale);
      RemoveAll(stale);
      r := InsertAll(read, defs, rows, stale);
      if r.Ok? {
        ReadableRest(read, defs, effects, before, rows, stale);
        IndexedIsClean(read, defs, rows, forward, reverse);
      }
    }

    /** Count how many rows of a table hold each key, and how many keys more than one row holds. */
    method CountGroups(read: Reader, table: Text, ds: Definitions, rows: Rows)
      returns (r: Result<nat, UniqueError>, ghost shared: set<UniqueKey>)
      requires table in ds
      ensures r.Ok? <==> ReadableTable(read, ds, rows, table)
      ensures r.Err? ==> r.error.BadPath? || r.error.BadRow?
      ensures r.Ok? ==>
              r.value == |shared| && forall k :: k in shared <==> Shared(read, ds, rows, TableIds(rows, table), k)
    {
      var counts: map<UniqueKey, nat> := map[];
      var left := TableIds(rows, table);
      ghost var all := left;
      while left != {}
        invariant left <= all
        invariant Counted(read, ds, rows, all - left, counts)
        invariant forall id :: id in all - left ==> RowKeys(read, ds, id, rows[id]).Ok?
        decreases |left|
      {
        var id :| id in left;
        var ks := CollectKeys(read, table, ds[table], rows[id]);
        if ks.Err? {
          shared := {};
          return Err(ks.error), shared;
        }
        CountedNext(read, ds, rows, all - left, counts, id);
        assert all - (left - {id}) == (all - left) + {id};
        counts := Bump(counts, ks.value);
        left := left - {id};
      }
      var groups := set k | k in counts && counts[k] > 1;
      assert all - {} == all;
      CountsFindShared(read, ds, rows, all, counts);
      shared := groups;
      r := Ok(|groups|);
    }

    /** Give a table new constraints, if its rows meet them; then none of them is refused. */
    method Redefine(read: Reader, table: Text, uniques: seq<Unique>, rows: Rows) returns (r: Result<(), UniqueError>)
      requires Indexed(read, defs, rows, forward, reverse)
      modifies this
      ensures r.Ok? <==> CleanTable(read, Defined(old(defs), table, uniques), rows, table)
      ensures r.Ok? ==> defs == Defined(old(defs), table, uniques) && Indexed(read, defs, rows, forward, reverse)
      ensures r != Err(Violation)
      ensures r.Err? && r.error.DuplicateGroups? ==>
                r.error.groups > 0 && ReadableTable(read, Defined(old(defs), table, uniques), rows, table)
    {
      var ds := Defined(defs, table, uniques);
      var groups, shared := CountGroups(read, table, ds, rows);
      if groups.Err? {
        return Err(groups.error);
      }
      NoneShared(read, ds, rows, table, shared);
      if groups.value > 0 {
        return Err(DuplicateGroups(groups.value));
      }
      IndexedIsClean(read, defs, rows, forward, reverse);
      CleanRedefined(read, defs, table, uniques, rows);
      Clear(table);
      RebuiltRedefined(read, old(defs), table, uniques, rows);
      r := InsertAll(read, ds, rows, TableIds(rows, table));
      defs := ds;
    }

    /** Forget a table that has no constraints any more. */
    method Undefine(read: Reader, table: Text, ghost rows: Rows)
      requires Indexed(read, defs, rows, forward, reverse)
      modifies this
      ensures defs == old(defs) - {table} && Indexed(read, defs, rows, forward, reverse)
    {
      RebuiltUndefined(read, defs, table, rows);
      Clear(table);
      defs := defs - {table};
    }

    method UndefineAll(read: Reader, tables: set<Text>, ghost rows: Rows)
      requires Indexed(read, defs, rows, forward, reverse)
      modifies this
      ensures defs == old(defs) - tables && Indexed(read, defs, rows, forward, reverse)
    {
      var left := tables;
      while left != {}
        invariant left <= tables
        invariant defs == old(defs) - (tables - left) && Indexed(read, defs, rows, forward, reverse)
        decreases |left|
      {
        var t :| t in left;
        Undefine(read, t, rows);
        left := left - {t};
      }
    }

    /**
     Take over the configured constraints: drop those no longer configured, keep those that are as they
     were, and index the others from the rows. It succeeds exactly when every new one has scalar paths
     and rows that meet it, and never finds a duplicate only while inserting.
     */
    method Configure(read: Reader, configured: seq<(Text, seq<Unique>)>, rows: Rows)
      returns (r: Result<(), UniqueError>)
      requires Indexed(read, defs, rows, forward, reverse)
      modifies this
      ensures r.Ok? <==> forall i :: 0 <= i < |configured| ==> Acceptable(read, old(defs), configured[i], rows)
      ensures r.Ok? ==> Indexed(read, defs, rows, forward, reverse)
      ensures r.Ok? ==> defs == Configured(old(defs), configured, |configured|)
      ensures r != Err(Violation)
    {
      var was := defs;
      var obsolete := set t | t in was && !Mentioned(configured, t);
      UndefineAll(read, obsolete, rows);
      assert defs == Configured(was, configured, 0);
      var i := 0;
      while i < |configured|
        invariant i <= |configured|
        invariant Indexed(read, defs, rows, forward, reverse)
        invariant defs == Configured(was, configured, i)
        invariant forall j :: 0 <= j < i ==> Acceptable(read, was, configured[j], rows)
      {
        var (table, uniques) := configured[i];
        if !Scalar(uniques) {
          return Err(BadPath);
        }
        if !(table in was && was[table] == uniques) {
          OnlyItsTable(read, defs, was, table, uniques, rows);
          r := Redefine(read, table, uniques, rows);
          if r.Err? {
            return;
          }
        }
        i := i + 1;
      }
      r := Ok(());
    }
  }
}
