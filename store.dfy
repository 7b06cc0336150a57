/**
 * The relational store behind the DAOs, reduced to what the services observe:
 * a table is a map from a row's uuid to the row, plus the order in which the
 * table holds its rows, which is the order list queries return them in.
 */
module Store {
  import opened Wrappers

  /** No element occurs twice in `s`. */
  ghost predicate NoDuplicates<T>(s: seq<T>) {
    forall i, j :: 0 <= i < j < |s| ==> s[i] != s[j]
  }

  /** `s` with every occurrence of `key` removed. */
  function Without(s: seq<string>, key: string): (r: seq<string>)
    ensures forall k :: k in r <==> k in s && k != key
    ensures NoDuplicates(s) ==> NoDuplicates(r)
    ensures key !in s ==> r == s
    ensures |r| <= |s|
  {
    if s == [] then []
    else
      var rest := Without(s[1..], key);
      assert NoDuplicates(s) ==> NoDuplicates(s[1..]) && s[0] !in s[1..] by {
        if NoDuplicates(s) {
          forall i, j | 0 <= i < j < |s| - 1 ensures s[1..][i] != s[1..][j] {
            assert s[1..][i] == s[i + 1] && s[1..][j] == s[j + 1];
          }
          forall i | 0 <= i < |s| - 1 ensures s[1..][i] != s[0] {
            assert s[1..][i] == s[i + 1];
          }
        }
      }
      if s[0] == key then rest else [s[0]] + rest
  }

  datatype Table<T(==)> = Table(rows: map<string, T>, order: seq<string>) {

    /** Every row is held exactly once in `order`, and `order` names only rows. */
    ghost predicate Valid() {
      && NoDuplicates(order)
      && forall k :: k in rows <==> k in order
    }

    /** Distinct uuids hold distinct rows. */
    ghost predicate Injective() {
      forall k1, k2 :: k1 in rows && k2 in rows && rows[k1] == rows[k2] ==> k1 == k2
    }

    /** Every row is filed under its own key, as `key` reads it off the row. */
    ghost predicate FiledBy(key: T -> string) {
      forall k :: k in rows ==> key(rows[k]) == k
    }

    /** Rows filed under their own key are distinct exactly when their keys are. */
    lemma FiledIsInjective(key: T -> string)
      requires FiledBy(key)
      ensures Injective()
    {
    }

    /**
     * In a table filed by `key`, a duplicate-free list of stored rows lists
     * every key at most once.
     */
    lemma DistinctRowsDistinctKeys(key: T -> string, r: seq<T>)
      requires FiledBy(key)
      requires forall x :: x in r ==> x in rows.Values
      requires NoDuplicates(r)
      ensures forall i, j :: 0 <= i < j < |r| ==> key(r[i]) != key(r[j])
    {
      forall i, j | 0 <= i < j < |r| ensures key(r[i]) != key(r[j]) {
        assert r[i] in rows.Values && r[j] in rows.Values;
        var ki :| ki in rows && rows[ki] == r[i];
        var kj :| kj in rows && rows[kj] == r[j];
        assert key(r[i]) == ki && key(r[j]) == kj;
      }
    }

    /** Lookup by uuid; `None` plays the part of a DAO's null result. */
    function Get(key: string): (r: Option<T>)
      ensures r.Some? <==> key in rows
      ensures r.Some? ==> r.value == rows[key]
    {
      if key in rows then Some(rows[key]) else None
    }

    /** persist of a new row: it is added last and nothing else changes. */
    function Insert(key: string, row: T): (t: Table<T>)
      requires key !in rows
      ensures Valid() ==> t.Valid()
      ensures t.rows == rows[key := row]
      ensures t.order == order + [key]
      ensures |t.rows| == |rows| + 1
    {
      Table(rows[key := row], order + [key])
    }

    /** merge of an existing row: it keeps its place and the other rows do not change. */
    function Update(key: string, row: T): (t: Table<T>)
      requires key in rows
      ensures Valid() ==> t.Valid()
      ensures t.rows == rows[key := row] && t.rows.Keys == rows.Keys
      ensures t.order == order
    {
      Table(rows[key := row], order)
    }

    /** remove of a row: the other rows keep their values; an absent key changes nothing. */
    function Delete(key: string): (t: Table<T>)
      ensures Valid() ==> t.Valid()
      ensures t.rows == rows - {key}
      ensures key !in t.rows
      ensures Valid() && key !in rows ==> t == this
    {
      Table(rows - {key}, Without(order, key))
    }

    /**
     * A list query: the rows satisfying `p`, in table order. In a well-formed
     * table whose rows are distinct, no row is listed twice.
     */
    function Select(p: T -> bool): (r: seq<T>)
      ensures forall x :: x in r ==> p(x) && x in rows.Values
      ensures Valid() ==> forall k :: k in rows && p(rows[k]) ==> rows[k] in r
      ensures Valid() && Injective() ==> NoDuplicates(r)
    {
      SelectFrom(order, p)
    }

    /** The rows stored under `keys` that satisfy `p`, in the order of `keys`. */
    function SelectFrom(keys: seq<string>, p: T -> bool): (r: seq<T>)
      ensures forall x :: x in r ==> p(x) && exists i :: 0 <= i < |keys| && keys[i] in rows && rows[keys[i]] == x
      ensures forall k :: k in keys && k in rows && p(rows[k]) ==> rows[k] in r
      ensures NoDuplicates(keys) && Injective() ==> NoDuplicates(r)
      ensures |r| <= |keys|
    {
      if keys == [] then []
      else
        var rest := SelectFrom(keys[1..], p);
        assert NoDuplicates(keys) && Injective() && keys[0] in rows ==>
                 NoDuplicates(keys[1..]) && rows[keys[0]] !in rest by {
          if NoDuplicates(keys) && Injective() && keys[0] in rows {
            forall i, j | 0 <= i < j < |keys| - 1 ensures keys[1..][i] != keys[1..][j] {
              assert keys[1..][i] == keys[i + 1] && keys[1..][j] == keys[j + 1];
            }
          }
        }
        if keys[0] in rows && p(rows[keys[0]]) then [rows[keys[0]]] + rest else rest
    }
  }
}
