/**
 * An in-memory stand-in for one database table with a serial primary key.
 * Rows are kept in primary-key order, which is also the order the handlers'
 * unordered `SELECT`s and `First` lookups see them in.
 */
module Tables {
  import opened Wrappers

  /** A stored row together with the primary key the database gave it. */
  datatype Entry<T> = Entry(id: nat, row: T)

  /** The rows of a table and the next value of its id sequence. */
  datatype Table<T> = Table(entries: seq<Entry<T>>, nextId: nat)

  /** A fresh table; serial keys start at 1. */
  function Empty<T>(): (t: Table<T>)
    ensures Valid(t) && |t.entries| == 0 && t.nextId == 1
  {
    Table([], 1)
  }

  /** Primary keys strictly increase along the sequence (so they are unique). */
  ghost predicate Ascending<T>(es: seq<Entry<T>>) {
    forall i, j :: 0 <= i < j < |es| ==> es[i].id < es[j].id
  }

  /** Every key in `es` is larger than `id`. */
  ghost predicate Above<T>(es: seq<Entry<T>>, id: int) {
    forall e :: e in es ==> id < e.id
  }

  /** Keys are unique, ordered, and all below the sequence's next value. */
  ghost predicate Valid<T>(t: Table<T>) {
    Ascending(t.entries) && forall e :: e in t.entries ==> e.id < t.nextId
  }

  /** `SELECT ... WHERE id = ? LIMIT 1`: the entry with key `id`, if any. */
  function Get<T>(es: seq<Entry<T>>, id: nat): (r: Option<Entry<T>>)
    ensures r.Some? ==> r.value in es && r.value.id == id
    ensures r.None? <==> forall e :: e in es ==> e.id != id
  {
    if |es| == 0 then None
    else if es[0].id == id then Some(es[0])
    else Get(es[1..], id)
  }

  /** `First` under a condition: the earliest entry (smallest key) satisfying `p`. */
  function First<T>(es: seq<Entry<T>>, p: Entry<T> -> bool): (r: Option<Entry<T>>)
    ensures r.Some? ==> r.value in es && p(r.value)
    ensures r.None? <==> forall e :: e in es ==> !p(e)
    ensures r.Some? ==> exists i :: 0 <= i < |es| && es[i] == r.value && forall j :: 0 <= j < i ==> !p(es[j])
  {
    if |es| == 0 then None
    else if p(es[0]) then Some(es[0])
    else
      var r := First(es[1..], p);
      assert r.Some? ==> exists i :: 0 <= i < |es| && es[i] == r.value && forall j :: 0 <= j < i ==> !p(es[j]) by {
        if r.Some? {
          var i :| 0 <= i < |es[1..]| && es[1..][i] == r.value && forall j :: 0 <= j < i ==> !p(es[1..][j]);
          assert es[i + 1] == r.value;
          assert forall j :: 0 <= j < i + 1 ==> !p(es[j]) by {
            forall j | 0 <= j < i + 1 ensures !p(es[j]) {
              if j > 0 { assert es[j] == es[1..][j - 1]; }
            }
          }
        }
      }
      r
  }

  /** The entries satisfying `keep`, in their original order. */
  function Filter<T>(es: seq<Entry<T>>, keep: Entry<T> -> bool): (r: seq<Entry<T>>)
    ensures |r| <= |es|
    ensures forall e :: e in r ==> e in es && keep(e)
    ensures forall e :: e in es && keep(e) ==> e in r
  {
    if |es| == 0 then []
    else if keep(es[0]) then [es[0]] + Filter(es[1..], keep)
    else Filter(es[1..], keep)
  }

  /** `Count` under a condition is positive exactly when some entry satisfies it. */
  lemma FilterNonEmpty<T>(es: seq<Entry<T>>, keep: Entry<T> -> bool)
    ensures |Filter(es, keep)| > 0 <==> exists e :: e in es && keep(e)
  {
    var r := Filter(es, keep);
    if |r| > 0 {
      assert r[0] in r;
    }
  }

  /** A condition every entry satisfies filters nothing out. */
  lemma {:induction false} FilterAll<T>(es: seq<Entry<T>>, keep: Entry<T> -> bool)
    requires forall e :: e in es ==> keep(e)
    ensures Filter(es, keep) == es
  {
    if |es| > 0 {
      FilterAll(es[1..], keep);
    }
  }

  /** `Create`: append a row under the next key. */
  function Insert<T>(t: Table<T>, row: T): (r: Table<T>)
    ensures Valid(t) ==> Valid(r)
    ensures r.nextId == t.nextId + 1
    ensures |r.entries| == |t.entries| + 1
    ensures forall i :: 0 <= i < |t.entries| ==> r.entries[i] == t.entries[i]
    ensures r.entries[|t.entries|] == Entry(t.nextId, row)
  {
    Table(t.entries + [Entry(t.nextId, row)], t.nextId + 1)
  }

  /** `Save` of an already stored row: the entry with key `id` gets `row`. */
  function Replace<T>(es: seq<Entry<T>>, id: nat, row: T): (r: seq<Entry<T>>)
    ensures |r| == |es|
    ensures forall i :: 0 <= i < |es| ==> r[i].id == es[i].id
    ensures forall i :: 0 <= i < |es| && es[i].id != id ==> r[i] == es[i]
    ensures forall i :: 0 <= i < |es| && es[i].id == id ==> r[i] == Entry(id, row)
    ensures forall e :: e in r ==> e in es || e == Entry(id, row)
  {
    if |es| == 0 then []
    else [if es[0].id == id then Entry(id, row) else es[0]] + Replace(es[1..], id, row)
  }

  /** The row filter of a delete by key. */
  function KeyIsNot<T>(id: nat): Entry<T> -> bool {
    (e: Entry<T>) => e.id != id
  }

  /** The row filter of a delete under a condition. */
  function RowNot<T>(drop: T -> bool): Entry<T> -> bool {
    (e: Entry<T>) => !drop(e.row)
  }

  /** `Delete` by primary key. */
  function Remove<T>(t: Table<T>, id: nat): (r: Table<T>)
    ensures Valid(t) ==> Valid(r)
    ensures r.nextId == t.nextId
    ensures forall e :: e in r.entries ==> e in t.entries && e.id != id
    ensures forall e :: e in t.entries && e.id != id ==> e in r.entries
  {
    assert Valid(t) ==> Ascending(Filter(t.entries, KeyIsNot(id))) by {
      if Valid(t) { FilterAscending(t.entries, KeyIsNot(id)); }
    }
    Table(Filter(t.entries, KeyIsNot(id)), t.nextId)
  }

  /** `Delete` under a condition on the row. */
  function RemoveWhere<T>(t: Table<T>, drop: T -> bool): (r: Table<T>)
    ensures Valid(t) ==> Valid(r)
    ensures r.nextId == t.nextId
    ensures forall e :: e in r.entries ==> e in t.entries && !drop(e.row)
    ensures forall e :: e in t.entries && !drop(e.row) ==> e in r.entries
  {
    assert Valid(t) ==> Ascending(Filter(t.entries, RowNot(drop))) by {
      if Valid(t) { FilterAscending(t.entries, RowNot(drop)); }
    }
    Table(Filter(t.entries, RowNot(drop)), t.nextId)
  }

  // ---------------------------------------------------------------------
  // Lemmas: how lookups see each update

  lemma AscendingHead<T>(es: seq<Entry<T>>)
    requires Ascending(es) && |es| > 0
    ensures Ascending(es[1..]) && Above(es[1..], es[0].id)
  {
    forall e | e in es[1..] ensures es[0].id < e.id {
      var k :| 0 <= k < |es[1..]| && es[1..][k] == e;
      assert es[k + 1] == e;
    }
  }

  lemma ConsAscending<T>(x: Entry<T>, es: seq<Entry<T>>)
    requires Ascending(es) && Above(es, x.id)
    ensures Ascending([x] + es)
  {
    forall i, j | 0 <= i < j < |[x] + es| ensures ([x] + es)[i].id < ([x] + es)[j].id {
      if i == 0 {
        assert ([x] + es)[j] == es[j - 1];
        assert es[j - 1] in es;
      } else {
        assert ([x] + es)[i] == es[i - 1] && ([x] + es)[j] == es[j - 1];
      }
    }
  }

  /** Filtering keeps keys in order. */
  lemma {:induction false} FilterAscending<T>(es: seq<Entry<T>>, keep: Entry<T> -> bool)
    requires Ascending(es)
    ensures Ascending(Filter(es, keep))
  {
    if |es| > 0 {
      AscendingHead(es);
      FilterAscending(es[1..], keep);
      if keep(es[0]) {
        var rest := Filter(es[1..], keep);
        assert Above(rest, es[0].id);
        ConsAscending(es[0], rest);
      }
    }
  }

  /** In a table with unique keys, every stored entry is what its key finds. */
  lemma {:induction false} GetStored<T>(es: seq<Entry<T>>, e: Entry<T>)
    requires Ascending(es) && e in es
    ensures Get(es, e.id) == Some(e)
  {
    AscendingHead(es);
    if es[0] != e {
      assert e in es[1..];
      assert es[0].id < e.id;
      GetStored(es[1..], e);
    }
  }

  /** After filtering, a key finds its old entry if that entry was kept, and nothing otherwise. */
  lemma {:induction false} GetFilter<T>(es: seq<Entry<T>>, keep: Entry<T> -> bool, id: nat)
    requires Ascending(es)
    ensures Get(Filter(es, keep), id) ==
            (if Get(es, id).Some? && keep(Get(es, id).value) then Get(es, id) else None)
  {
    if |es| > 0 {
      AscendingHead(es);
      GetFilter(es[1..], keep, id);
      if es[0].id == id && !keep(es[0]) {
        assert forall e :: e in Filter(es[1..], keep) ==> e in es[1..] && e.id != id;
      }
    }
  }

  /** Replacing a row changes what its key finds and nothing else. */
  lemma {:induction false} GetReplace<T>(es: seq<Entry<T>>, id: nat, row: T, k: nat)
    ensures Get(Replace(es, id, row), k) ==
            (if k != id then Get(es, k)
             else if Get(es, id).Some? then Some(Entry(id, row)) else None)
  {
    if |es| > 0 {
      GetReplace(es[1..], id, row, k);
    }
  }

  /** Appending an entry with a new key makes that key find it and leaves other keys alone. */
  lemma {:induction false} GetAppend<T>(es: seq<Entry<T>>, x: Entry<T>, k: nat)
    requires forall e :: e in es ==> e.id != x.id
    ensures Get(es + [x], k) == (if k == x.id then Some(x) else Get(es, k))
  {
    if |es| == 0 {
      assert es + [x] == [x];
    } else {
      assert (es + [x])[1..] == es[1..] + [x];
      GetAppend(es[1..], x, k);
    }
  }

  /** Lookups in an inserted-into table. */
  lemma GetInsert<T>(t: Table<T>, row: T, k: nat)
    requires Valid(t)
    ensures Get(Insert(t, row).entries, k) == (if k == t.nextId then Some(Entry(t.nextId, row)) else Get(t.entries, k))
  {
    GetAppend(t.entries, Entry(t.nextId, row), k);
  }

  /** Lookups in a table with one key removed. */
  lemma GetRemove<T>(t: Table<T>, id: nat, k: nat)
    requires Valid(t)
    ensures Get(Remove(t, id).entries, k) == (if k == id then None else Get(t.entries, k))
  {
    GetFilter(t.entries, KeyIsNot(id), k);
  }

  /** Lookups in a table with the rows satisfying `drop` removed. */
  lemma GetRemoveWhere<T>(t: Table<T>, drop: T -> bool, k: nat)
    requires Valid(t)
    ensures Get(RemoveWhere(t, drop).entries, k) ==
            (if Get(t.entries, k).Some? && !drop(Get(t.entries, k).value.row) then Get(t.entries, k) else None)
  {
    GetFilter(t.entries, RowNot(drop), k);
  }

  /** An appended entry is found under a condition only when no earlier entry is. */
  lemma {:induction false} FirstAppend<T>(es: seq<Entry<T>>, x: Entry<T>, p: Entry<T> -> bool)
    ensures First(es + [x], p) == (if First(es, p).Some? then First(es, p) else if p(x) then Some(x) else None)
  {
    if |es| == 0 {
      assert es + [x] == [x];
    } else {
      assert (es + [x])[1..] == es[1..] + [x];
      FirstAppend(es[1..], x, p);
    }
  }

  /** Replacing a row keeps the table's keys, so it stays valid. */
  lemma ReplaceValid<T>(t: Table<T>, id: nat, row: T)
    requires Valid(t)
    requires Get(t.entries, id).Some?
    ensures Valid(Table(Replace(t.entries, id, row), t.nextId))
  {
  }
}
