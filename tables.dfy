/**
 * One database table as the services see it: the rows keyed by their integer
 * primary key, together with the order in which a query without ORDER BY
 * returns them (insertion order). The backend runs on SQLite, which gives a
 * new row the key one above the largest key in the table.
 */
module Tables {
  import opened Python

  datatype Table<R> = Table(rows: map<int, R>, order: seq<int>)

  ghost predicate Distinct(ids: seq<int>) {
    forall i, j :: 0 <= i < j < |ids| ==> ids[i] != ids[j]
  }

  /** The stored order lists every key exactly once; keys are positive. */
  ghost predicate Valid<R>(t: Table<R>) {
    && Distinct(t.order)
    && (forall i :: 0 <= i < |t.order| ==> t.order[i] in t.rows)
    && (forall k :: k in t.rows ==> k in t.order)
    && (forall k :: k in t.rows ==> 0 < k)
  }

  function Empty<R>(): (t: Table<R>)
    ensures Valid(t) && t.rows == map[] && Rows(t) == []
  {
    Table(map[], [])
  }

  /** The largest key in `ids`, or 0 for none. */
  function MaxKey(ids: seq<int>): (m: int)
    ensures forall k :: k in ids ==> k <= m
    ensures ids == [] ==> m == 0
    ensures ids != [] ==> m in ids || m == 0
  {
    if ids == [] then 0
    else
      var m := MaxKey(ids[1..]);
      assert forall k :: k in ids ==> k == ids[0] || k in ids[1..];
      if ids[0] > m then ids[0] else m
  }

  /** The key SQLite assigns to the next inserted row: one above the largest key. */
  function NextId<R>(t: Table<R>): (id: int)
    requires Valid(t)
    ensures 0 < id && id !in t.rows
    ensures forall k :: k in t.rows ==> k < id
  {
    MaxKey(t.order) + 1
  }

  /** `query.get(id)`: the row with that primary key, if any. */
  function Get<R>(t: Table<R>, id: int): (r: Option<R>)
    ensures r.Some? <==> id in t.rows
    ensures r.Some? ==> r.value == t.rows[id]
  {
    if id in t.rows then Some(t.rows[id]) else None
  }

  /** The rows `ids` name, in that order. */
  function Lookup<R>(ids: seq<int>, rows: map<int, R>): (r: seq<R>)
    requires forall i :: 0 <= i < |ids| ==> ids[i] in rows
    ensures |r| == |ids|
    ensures forall i :: 0 <= i < |ids| ==> r[i] == rows[ids[i]]
  {
    seq(|ids|, i requires 0 <= i < |ids| => rows[ids[i]])
  }

  /** `query.all()` on the whole table: every row, in stored order. */
  function Rows<R>(t: Table<R>): (r: seq<R>)
    requires Valid(t)
    ensures |r| == |t.order|
    ensures forall i :: 0 <= i < |r| ==> t.order[i] in t.rows && r[i] == t.rows[t.order[i]]
    ensures forall k :: k in t.rows ==> t.rows[k] in r
  {
    var r := Lookup(t.order, t.rows);
    assert forall k :: k in t.rows ==> t.rows[k] in r by {
      forall k | k in t.rows ensures t.rows[k] in r {
        var i :| 0 <= i < |t.order| && t.order[i] == k;
        assert r[i] == t.rows[k];
      }
    }
    r
  }

  /** Every listed row is a stored row. */
  lemma RowsStored<R>(t: Table<R>, x: R)
    requires Valid(t) && x in Rows(t)
    ensures exists k :: k in t.rows && t.rows[k] == x
  {
    var i :| 0 <= i < |Rows(t)| && Rows(t)[i] == x;
    assert t.rows[t.order[i]] == x;
  }

  /** `session.add(row); session.commit()`: the row is stored under the next key and listed last. */
  function Insert<R>(t: Table<R>, row: R): (t': Table<R>)
    requires Valid(t)
    ensures Valid(t')
    ensures t'.rows == t.rows[NextId(t) := row]
    ensures Rows(t') == Rows(t) + [row]
  {
    var id := NextId(t);
    var t' := Table(t.rows[id := row], t.order + [id]);
    AppendValid(t, id, row);
    AppendRows(t, id, row);
    t'
  }

  lemma AppendValid<R>(t: Table<R>, id: int, row: R)
    requires Valid(t) && 0 < id && id !in t.rows
    ensures Valid(Table(t.rows[id := row], t.order + [id]))
  {
    var order := t.order + [id];
    forall i, j | 0 <= i < j < |order| ensures order[i] != order[j] {
      if j == |t.order| { assert order[i] == t.order[i] && t.order[i] in t.order; }
    }
    forall k ensures k in order <==> k in t.rows[id := row] {
      assert k in order <==> k in t.order || k == id;
    }
  }

  lemma AppendRows<R>(t: Table<R>, id: int, row: R)
    requires Valid(t) && 0 < id && id !in t.rows
    ensures var t' := Table(t.rows[id := row], t.order + [id]);
            Valid(t') && Rows(t') == Rows(t) + [row]
  {
    var t' := Table(t.rows[id := row], t.order + [id]);
    AppendValid(t, id, row);
    var a, b := Rows(t'), Rows(t) + [row];
    assert |a| == |b|;
    forall i | 0 <= i < |a| ensures a[i] == b[i] {
      if i < |t.order| {
        assert t'.order[i] == t.order[i];
      }
    }
  }

  /** `ids` with every occurrence of `id` left out, the others in their order. */
  function Without(ids: seq<int>, id: int): (r: seq<int>)
    ensures forall k :: k in r <==> k in ids && k != id
    ensures Distinct(ids) ==> Distinct(r)
    ensures id !in ids ==> r == ids
  {
    if ids == [] then []
    else
      var rest := Without(ids[1..], id);
      assert Distinct(ids) ==> Distinct(ids[1..]) && ids[0] !in ids[1..];
      if ids[0] == id then rest else [ids[0]] + rest
  }

  /** In a duplicate-free order, leaving out the key at position `i` closes the gap and moves nothing else. */
  lemma {:induction false} WithoutAt(ids: seq<int>, i: nat)
    requires Distinct(ids) && i < |ids|
    ensures Without(ids, ids[i]) == ids[..i] + ids[i + 1..]
    decreases i
  {
    var id, tail := ids[i], ids[1..];
    if i == 0 {
      assert id !in tail by {
        forall j | 0 <= j < |tail| ensures tail[j] != id { assert tail[j] == ids[j + 1]; }
      }
      assert Without(ids, id) == Without(tail, id) == tail;
      assert ids[..i] + ids[i + 1..] == tail;
    } else {
      assert Distinct(tail) by {
        forall a, b | 0 <= a < b < |tail| ensures tail[a] != tail[b] { assert tail[a] == ids[a + 1] && tail[b] == ids[b + 1]; }
      }
      assert tail[i - 1] == id && ids[0] != id;
      WithoutAt(tail, i - 1);
      assert Without(ids, id) == [ids[0]] + (tail[..i - 1] + tail[i..]);
      assert ids[..i] == [ids[0]] + tail[..i - 1];
      assert ids[i + 1..] == tail[i..];
    }
  }

  /** `session.delete(row); session.commit()`: only that row leaves the table, and the rest keep their order. */
  function Delete<R>(t: Table<R>, id: int): (t': Table<R>)
    requires Valid(t)
    ensures Valid(t')
    ensures t'.rows == t.rows - {id}
    ensures forall i :: 0 <= i < |t.order| && t.order[i] == id ==> t'.order == t.order[..i] + t.order[i + 1..]
    ensures id !in t.rows ==> t' == t
  {
    var order := Without(t.order, id);
    assert forall i :: 0 <= i < |order| ==> order[i] in order;
    forall i | 0 <= i < |t.order| && t.order[i] == id ensures order == t.order[..i] + t.order[i + 1..] {
      WithoutAt(t.order, i);
    }
    Table(t.rows - {id}, order)
  }

  /** A listing after a delete is the listing before it with that one row taken out. */
  lemma DeleteRows<R>(t: Table<R>, i: nat)
    requires Valid(t) && i < |t.order|
    ensures Rows(Delete(t, t.order[i])) == Rows(t)[..i] + Rows(t)[i + 1..]
  {
    var t' := Delete(t, t.order[i]);
    assert t'.order == t.order[..i] + t.order[i + 1..];
    RowsWithout(t, t', i);
  }

  /** Taking key `t.order[i]` out of the order, and no stored row changed, takes row `i` out of the listing. */
  lemma RowsWithout<R>(t: Table<R>, t': Table<R>, i: nat)
    requires Valid(t) && Valid(t') && i < |t.order|
    requires t'.order == t.order[..i] + t.order[i + 1..]
    requires forall k :: k in t'.rows ==> k in t.rows && t'.rows[k] == t.rows[k]
    ensures Rows(t') == Rows(t)[..i] + Rows(t)[i + 1..]
  {
    var r := Rows(t);
    var a, b := Rows(t'), r[..i] + r[i + 1..];
    forall j | 0 <= j < |a| ensures a[j] == b[j] {
      var k := if j < i then j else j + 1;
      assert t'.order[j] == t.order[k] && b[j] == r[k];
      assert a[j] == t'.rows[t.order[k]] && r[k] == t.rows[t.order[k]];
    }
    assert |a| == |b|;
  }

  /** Assigning to the attributes of a stored row and committing: the row keeps its key and its place. */
  function Put<R>(t: Table<R>, id: int, row: R): (t': Table<R>)
    requires Valid(t) && id in t.rows
    ensures Valid(t')
    ensures t'.rows == t.rows[id := row] && t'.order == t.order
  {
    Table(t.rows[id := row], t.order)
  }

  /** `query.filter_by(...)`: the elements of `s` that satisfy `p`, in their order. */
  function Where<R(!new)>(s: seq<R>, p: R -> bool): (r: seq<R>)
    ensures |r| <= |s|
    ensures forall i :: 0 <= i < |r| ==> p(r[i])
    ensures forall x :: x in r <==> x in s && p(x)
  {
    if s == [] then []
    else
      var init, last := s[..|s| - 1], s[|s| - 1];
      assert s == init + [last];
      Where(init, p) + (if p(last) then [last] else [])
  }

  /** Filtering distributes over concatenation, so it keeps the stored order. */
  lemma {:induction false} WhereConcat<R(!new)>(a: seq<R>, b: seq<R>, p: R -> bool)
    ensures Where(a + b, p) == Where(a, p) + Where(b, p)
    decreases |b|
  {
    if b != [] {
      var init := b[..|b| - 1];
      assert (a + b)[..|a + b| - 1] == a + init;
      WhereConcat(a, init, p);
    } else {
      assert a + b == a;
    }
  }

  /** A filtered query finds something exactly when some stored row satisfies the filter. */
  lemma RowsWhere<R(!new)>(t: Table<R>, p: R -> bool)
    requires Valid(t)
    ensures Where(Rows(t), p) != [] <==> exists k :: k in t.rows && p(t.rows[k])
  {
    var found := Where(Rows(t), p);
    if found != [] {
      assert found[0] in found;
      RowsStored(t, found[0]);
    }
    if exists k :: k in t.rows && p(t.rows[k]) {
      var k :| k in t.rows && p(t.rows[k]);
      assert t.rows[k] in found;
    }
  }

  /** A row added by `Insert` comes last in any filtered listing it belongs to. */
  lemma WhereAfterInsert<R(!new)>(t: Table<R>, row: R, p: R -> bool)
    requires Valid(t)
    ensures Where(Rows(Insert(t, row)), p) == Where(Rows(t), p) + (if p(row) then [row] else [])
  {
    WhereConcat(Rows(t), [row], p);
  }

  /** How many leading rows `.offset(n)` skips on SQLite: negative counts as 0. */
  function Skipped(n: int, offset: Option<int>): (k: nat)
    requires 0 <= n
    ensures k <= n
    ensures offset.None? || offset.value <= 0 ==> k == 0
    ensures offset.Some? && 0 <= offset.value ==> k == (if offset.value < n then offset.value else n)
  {
    if offset.None? || offset.value <= 0 then 0
    else if offset.value < n then offset.value
    else n
  }

  /**
   * `r` is what OFFSET then LIMIT leave of `s`: the rows after the skipped
   * ones, in their order, as many as a non-negative limit allows.
   */
  ghost predicate IsPage<R>(r: seq<R>, s: seq<R>, offset: Option<int>, limit: Option<int>) {
    var k := Skipped(|s|, offset);
    && |r| == (if limit.None? || limit.value < 0 || |s| - k <= limit.value then |s| - k else limit.value)
    && forall i :: 0 <= i < |r| ==> r[i] == s[k + i]
  }

  /**
   * `.offset(offset)` then `.limit(limit)`, each applied only when given, as
   * SQLite runs them: a negative LIMIT means no bound, a negative OFFSET skips nothing.
   */
  function Page<R>(s: seq<R>, offset: Option<int>, limit: Option<int>): (r: seq<R>)
    ensures IsPage(r, s, offset, limit)
  {
    var skipped := if offset.Some? && 0 < offset.value then
                     (if offset.value < |s| then s[offset.value..] else [])
                   else s;
    if limit.Some? && 0 <= limit.value < |skipped| then skipped[..limit.value] else skipped
  }

  /** No parameters: the whole sequence. */
  lemma PageAll<R>(s: seq<R>)
    ensures Page(s, None, None) == s
  {
  }

  /** Every paged element comes from the sequence paged. */
  lemma PageFrom<R>(s: seq<R>, offset: Option<int>, limit: Option<int>, x: R)
    requires x in Page(s, offset, limit)
    ensures x in s
  {
    var r := Page(s, offset, limit);
    var i :| 0 <= i < |r| && r[i] == x;
    assert s[Skipped(|s|, offset) + i] == x;
  }
}
