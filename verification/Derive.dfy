/**
 * The connection table computed at compile time (`derive_privsep_enum` in `privsep-derive`):
 * the symmetric closure of the declared connections, and one row of flags per process.
 */
module Derive {
  type Name = string
  type Relation = map<Name, set<Name>>
  type Matrix = seq<seq<bool>>

  datatype Result = Connections(table: Relation) | UnknownProcess(name: Name)

  /** Enum variants are distinct, and each has its parsed `#[connect(..)]` list. */
  ghost predicate IsEnum(variants: seq<Name>, declared: seq<set<Name>>) {
    && |variants| == |declared|
    && forall i, j :: 0 <= i < j < |variants| ==> variants[i] != variants[j]
  }

  /** The declarations as a relation. */
  ghost predicate Declares(variants: seq<Name>, declared: seq<set<Name>>, table: Relation) {
    && |variants| == |declared|
    && (forall v :: v in table <==> v in variants)
    && forall i :: 0 <= i < |variants| ==> variants[i] in table && table[variants[i]] == declared[i]
  }

  /** Every declared target is a variant. */
  ghost predicate Known(table: Relation) {
    KnownFor(table, table.Keys)
  }

  ghost predicate KnownFor(table: Relation, sources: set<Name>) {
    forall v :: v in sources && v in table ==> table[v] <= table.Keys
  }

  ghost predicate Connected(table: Relation, v: Name, w: Name) {
    v in table && w in table[v]
  }

  ghost predicate Symmetric(table: Relation) {
    forall v, w :: Connected(table, v, w) ==> Connected(table, w, v)
  }

  ghost predicate Includes(big: Relation, small: Relation) {
    big.Keys == small.Keys && forall v, w :: Connected(small, v, w) ==> Connected(big, v, w)
  }

  /** What the loops have added once the sources in `done` have been handled. */
  ghost function Added(table: Relation, done: set<Name>): Relation {
    map v | v in table :: table[v] + set u | u in done && u in table && v in table[u]
  }

  lemma AddedNothing(table: Relation)
    ensures Added(table, {}) == table
  {
    forall v | v in table ensures Added(table, {})[v] == table[v] {
      assert Added(table, {})[v] <= table[v];
    }
  }

  lemma AddedOneMore(table: Relation, done: set<Name>, key: Name, mirrored: Relation)
    requires key in table
    requires var before := Added(table, done);
      mirrored == map v | v in before :: if v in table[key] then before[v] + {key} else before[v]
    ensures mirrored == Added(table, done + {key})
  {
    var before, after := Added(table, done), Added(table, done + {key});
    forall v | v in table ensures mirrored[v] == after[v] {
      var sources := set u | u in done && u in table && v in table[u];
      assert before[v] == table[v] + sources;
      assert (set u | u in done + {key} && u in table && v in table[u])
          == sources + if v in table[key] then {key} else {};
    }
  }

  ghost function Closure(table: Relation): Relation {
    Added(table, table.Keys)
  }

  /** It is the least symmetric relation that contains the declarations. */
  lemma ClosureIsLeastSymmetric(table: Relation, other: Relation)
    requires Known(table)
    ensures Symmetric(Closure(table)) && Includes(Closure(table), table)
    ensures Symmetric(other) && Includes(other, table) ==> Includes(other, Closure(table))
  {
    var closure := Closure(table);
    forall v, w | Connected(closure, v, w) ensures Connected(closure, w, v) {
      assert w in table[v] || v in table[w];
    }
    if Symmetric(other) && Includes(other, table) {
      forall v, w | Connected(closure, v, w) ensures Connected(other, v, w) {
        if w in table[v] {
          assert Connected(table, v, w);
        } else {
          assert Connected(table, w, v);
        }
      }
    }
  }

  /** The first loop: every variant with its own list. */
  method Collect(variants: seq<Name>, declared: seq<set<Name>>) returns (table: Relation)
    requires IsEnum(variants, declared)
    ensures Declares(variants, declared, table)
  {
    table := map[];
    for i := 0 to |variants|
      invariant Declares(variants[..i], declared[..i], table)
    {
      table := table[variants[i] := declared[i]];
    }
  }

  /** The body of the outer loop: mirror the connections of one source. */
  method Mirror(original: Relation, table: Relation, key: Name) returns (r: Result)
    requires key in original && table.Keys == original.Keys
    ensures r.Connections? <==> original[key] <= original.Keys
    ensures r.Connections? ==>
      r.table == map v | v in table :: if v in original[key] then table[v] + {key} else table[v]
    ensures r.UnknownProcess? ==> r.name in original[key] && r.name !in original
  {
    var entries, result := original[key], table;
    while entries != {}
      invariant entries <= original[key] && original[key] - entries <= original.Keys
      invariant result == map v | v in table :: if v in original[key] - entries then table[v] + {key} else table[v]
      decreases |entries|
    {
      var entry :| entry in entries;
      if entry !in original {
        return UnknownProcess(entry);
      }
      result := result[entry := result[entry] + {key}];
      entries := entries - {entry};
    }
    r := Connections(result);
  }

  /** The state of the outer loop with some sources left to visit. */
  ghost predicate Mirrored(original: Relation, keys: set<Name>, result: Relation) {
    && keys <= original.Keys
    && result == Added(original, original.Keys - keys)
    && KnownFor(original, original.Keys - keys)
  }

  lemma MirroredStart(original: Relation)
    ensures Mirrored(original, original.Keys, original)
  {
    AddedNothing(original);
    assert original.Keys - original.Keys == {};
  }

  lemma MirroredEnd(original: Relation, result: Relation)
    requires Mirrored(original, {}, result)
    ensures result == Closure(original) && Known(original)
  {
    assert original.Keys - {} == original.Keys;
  }

  /** One more source. */
  method MirrorNext(original: Relation, table: Relation, key: Name, ghost keys: set<Name>) returns (r: Result)
    requires Mirrored(original, keys, table) && key in keys
    ensures r.Connections? ==> Mirrored(original, keys - {key}, r.table)
    ensures r.UnknownProcess? ==> r.name !in original && Connected(original, key, r.name)
  {
    r := Mirror(original, table, key);
    if r.Connections? {
      AddedOneMore(original, original.Keys - keys, key, r.table);
      assert original.Keys - (keys - {key}) == original.Keys - keys + {key};
    }
  }

  /** The second loop, over the sources in any order. */
  method MirrorAll(original: Relation) returns (r: Result)
    ensures r.Connections? ==> Known(original) && r.table == Closure(original)
    ensures r.UnknownProcess? ==> r.name !in original && exists v :: Connected(original, v, r.name)
  {
    var keys, result := original.Keys, original;
    MirroredStart(original);
    while keys != {}
      invariant Mirrored(original, keys, result)
      decreases |keys|
    {
      var key :| key in keys;
      var mirrored := MirrorNext(original, result, key, keys);
      if mirrored.UnknownProcess? {
        return mirrored;
      }
      result := mirrored.table;
      keys := keys - {key};
    }
    MirroredEnd(original, result);
    r := Connections(result);
  }

  lemma KnownTargets(variants: seq<Name>, declared: seq<set<Name>>, table: Relation)
    requires IsEnum(variants, declared) && Declares(variants, declared, table)
    ensures Known(table) <==> forall i, w :: 0 <= i < |declared| && w in declared[i] ==> w in variants
  {
    if Known(table) {
      forall i, w | 0 <= i < |declared| && w in declared[i] ensures w in variants {
        assert w in table[variants[i]];
      }
    }
  }

  /**
   * Closing the declarations, in whatever order the hash map and the hash sets are visited:
   * it fails exactly when a declared target is not a variant.
   */
  method Close(variants: seq<Name>, declared: seq<set<Name>>) returns (r: Result, ghost table: Relation)
    requires IsEnum(variants, declared)
    ensures Declares(variants, declared, table)
    ensures r.Connections? <==> forall i, w :: 0 <= i < |declared| && w in declared[i] ==> w in variants
    ensures r.Connections? ==> r.table == Closure(table)
    ensures r.UnknownProcess? ==> r.name !in variants && exists v :: Connected(table, v, r.name)
  {
    var original := Collect(variants, declared);
    table := original;
    r := MirrorAll(original);
    KnownTargets(variants, declared, table);
  }

  // ---- The rows ----

  /** The flags of one process: everyone is connected to the parent, which has id 0. */
  function Row(variants: seq<Name>, connect: set<Name>): (row: seq<bool>)
    ensures |row| == |variants|
  {
    seq(|variants|, id requires 0 <= id < |variants| => id == 0 || variants[id] in connect)
  }

  method Rows(variants: seq<Name>, table: Relation) returns (rows: Matrix)
    requires forall i :: 0 <= i < |variants| ==> variants[i] in table
    ensures |rows| == |variants| && forall i :: 0 <= i < |rows| ==> rows[i] == Row(variants, table[variants[i]])
  {
    rows := [];
    for i := 0 to |variants|
      invariant |rows| == i && forall k :: 0 <= k < i ==> rows[k] == Row(variants, table[variants[k]])
    {
      rows := rows + [Row(variants, table[variants[i]])];
    }
  }

  ghost predicate Square(m: Matrix) {
    forall i :: 0 <= i < |m| ==> |m[i]| == |m|
  }

  /** Off the parent's row and column. */
  ghost predicate SymmetricMatrix(m: Matrix)
    requires Square(m)
  {
    forall i, j :: 1 <= i < |m| && 1 <= j < |m| ==> m[i][j] == m[j][i]
  }

  ghost predicate NoSelf(m: Matrix)
    requires Square(m)
  {
    forall i :: 1 <= i < |m| ==> !m[i][i]
  }

  lemma RowsOfClosure(variants: seq<Name>, declared: seq<set<Name>>, table: Relation, rows: Matrix, i: nat, j: nat)
    requires IsEnum(variants, declared) && Declares(variants, declared, table)
    requires |rows| == |variants| && i < |rows| && j < |rows|
    requires rows[i] == Row(variants, Closure(table)[variants[i]])
    ensures rows[i][j] <==> j == 0 || variants[j] in declared[i] || variants[i] in declared[j]
  {
    assert table[variants[i]] == declared[i] && table[variants[j]] == declared[j];
  }

  /** The matrix that belongs to the declarations. */
  ghost predicate IsDerived(variants: seq<Name>, declared: seq<set<Name>>, rows: Matrix)
    requires |variants| == |declared|
  {
    && |rows| == |variants| && Square(rows)
    && forall i, j :: 0 <= i < |rows| && 0 <= j < |rows| ==>
         (rows[i][j] <==> j == 0 || variants[j] in declared[i] || variants[i] in declared[j])
  }

  lemma DerivedShape(variants: seq<Name>, declared: seq<set<Name>>, rows: Matrix)
    requires |variants| == |declared| && IsDerived(variants, declared, rows)
    ensures SymmetricMatrix(rows)
    ensures NoSelf(rows) <==> forall i :: 1 <= i < |rows| ==> variants[i] !in declared[i]
  {
    forall i, j | 1 <= i < |rows| && 1 <= j < |rows| ensures rows[i][j] == rows[j][i] {
      assert rows[i][j] <==> variants[j] in declared[i] || variants[i] in declared[j];
    }
    forall i | 1 <= i < |rows| ensures rows[i][i] <==> variants[i] in declared[i] {}
  }

  /**
   * The whole derivation: children i and j are flagged for each other exactly when one of them
   * declares the other, and a child is flagged for itself exactly when it declares itself.
   */
  method DeriveMatrix(variants: seq<Name>, declared: seq<set<Name>>) returns (r: Result, rows: Matrix)
    requires IsEnum(variants, declared)
    ensures r.Connections? <==> forall i, w :: 0 <= i < |declared| && w in declared[i] ==> w in variants
    ensures r.Connections? ==> IsDerived(variants, declared, rows) && SymmetricMatrix(rows)
    ensures r.Connections? ==> (NoSelf(rows) <==> forall i :: 1 <= i < |rows| ==> variants[i] !in declared[i])
  {
    ghost var table;
    r, table := Close(variants, declared);
    rows := [];
    if r.UnknownProcess? {
      return;
    }
    rows := Rows(variants, r.table);
    forall i, j | 0 <= i < |rows| && 0 <= j < |rows|
      ensures rows[i][j] <==> j == 0 || variants[j] in declared[i] || variants[i] in declared[j]
    {
      RowsOfClosure(variants, declared, table, rows, i, j);
    }
    DerivedShape(variants, declared, rows);
  }
}
