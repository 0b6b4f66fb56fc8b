/** How filtering by marker commutes with the changes the API can make to a rule table. */
module RuleLemmas {
  import opened NatRules
  import opened Sequences

  predicate Distinct(rows: seq<Row>) { forall i, j :: 0 <= i < j < |rows| ==> rows[i].id != rows[j].id }

  lemma {:induction false} OwnDistinct(rows: seq<Row>, marker: string)
    requires Distinct(rows)
    ensures Distinct(Own(rows, marker))
  {
    if rows == [] {
    } else {
      OwnDistinct(rows[1..], marker);
      assert forall r :: r in rows[1..] ==> r.id != rows[0].id;
    }
  }

  lemma {:induction false} DropDistinct(rows: seq<Row>, ids: set<nat>)
    requires Distinct(rows)
    ensures Distinct(Drop(rows, ids))
  {
    if rows == [] {
    } else {
      DropDistinct(rows[1..], ids);
      assert forall r :: r in rows[1..] ==> r.id != rows[0].id;
    }
  }

  lemma {:induction false} DropNone(rows: seq<Row>, ids: set<nat>)
    requires forall r :: r in rows ==> r.id !in ids
    ensures Drop(rows, ids) == rows
  {
    if rows == [] {
    } else {
      DropNone(rows[1..], ids);
    }
  }

  lemma {:induction false} DropDrop(rows: seq<Row>, a: set<nat>, b: set<nat>)
    ensures Drop(Drop(rows, a), b) == Drop(rows, a + b)
  {
    if rows == [] {
    } else {
      DropDrop(rows[1..], a, b);
      Cons(rows[0], Drop(rows[1..], a));
    }
  }

  lemma {:induction false} OwnDrop(rows: seq<Row>, ids: set<nat>, marker: string)
    ensures Own(Drop(rows, ids), marker) == Drop(Own(rows, marker), ids)
    ensures Foreign(Drop(rows, ids), marker) == Drop(Foreign(rows, marker), ids)
  {
    if rows == [] {
    } else {
      var h, t := rows[0], rows[1..];
      OwnDrop(t, ids, marker);
      Cons(h, Drop(t, ids));
      Cons(h, Own(t, marker));
      Cons(h, Foreign(t, marker));
    }
  }

  lemma OwnCons(h: Row, t: seq<Row>, marker: string)
    ensures Own([h] + t, marker) == if IsOwn(h, marker) then [h] + Own(t, marker) else Own(t, marker)
    ensures Foreign([h] + t, marker) == if IsOwn(h, marker) then Foreign(t, marker) else [h] + Foreign(t, marker)
  {
    Cons(h, t);
  }

  lemma {:induction false} OwnConcat(a: seq<Row>, b: seq<Row>, marker: string)
    ensures Own(a + b, marker) == Own(a, marker) + Own(b, marker)
    ensures Foreign(a + b, marker) == Foreign(a, marker) + Foreign(b, marker)
  {
    assert Own([], marker) == Foreign([], marker) == [];
    hide Own, Foreign, IsOwn;
    if a == [] {
      assert a + b == b;
    } else {
      var h, t := a[0], a[1..];
      assert a + b == [h] + (t + b);
      OwnCons(h, t + b, marker);
      OwnConcat(t, b, marker);
      Assoc([h], Own(t, marker), Own(b, marker));
      Assoc([h], Foreign(t, marker), Foreign(b, marker));
      assert a == [h] + t;
      OwnCons(h, t, marker);
    }
  }

  lemma OwnAppend(rows: seq<Row>, r: Row, marker: string)
    ensures Own(rows + [r], marker) == if IsOwn(r, marker) then Own(rows, marker) + [r] else Own(rows, marker)
    ensures Foreign(rows + [r], marker)
        == if IsOwn(r, marker) then Foreign(rows, marker) else Foreign(rows, marker) + [r]
  {
    OwnConcat(rows, [r], marker);
    assert [r][1..] == [];
  }

  lemma UpdateCons(h: Row, t: seq<Row>, id: nat, diff: Fields)
    ensures Update([h] + t, id, diff) == [Update([h], id, diff)[0]] + Update(t, id, diff)
  {
  }

  /** Changing rules without touching their comment moves none between own and foreign. */
  lemma {:induction false} OwnUpdate(rows: seq<Row>, id: nat, diff: Fields, marker: string)
    requires forall r :: r in rows && r.id == id && "comment" in diff ==> Get(r.fields, "comment") == diff["comment"]
    ensures Own(Update(rows, id, diff), marker) == Update(Own(rows, marker), id, diff)
    ensures Foreign(Update(rows, id, diff), marker) == Update(Foreign(rows, marker), id, diff)
  {
    if rows == [] {
      assert Update(rows, id, diff) == [];
    } else {
      var h, t := rows[0], rows[1..];
      var u := Update([h], id, diff)[0];
      assert IsOwn(u, marker) == IsOwn(h, marker);
      hide Own, Foreign, IsOwn, Update, Get;
      assert rows == [h] + t;
      UpdateCons(h, t, id, diff);
      OwnUpdate(t, id, diff, marker);
      OwnCons(h, t, marker);
      OwnCons(u, Update(t, id, diff), marker);
      UpdateCons(h, Own(t, marker), id, diff);
      UpdateCons(h, Foreign(t, marker), id, diff);
    }
  }

  lemma UpdateNone(rows: seq<Row>, id: nat, diff: Fields)
    requires forall r :: r in rows && r.id == id ==> r.fields + diff == r.fields
    ensures Update(rows, id, diff) == rows
  {
  }

  lemma SameId(rows: seq<Row>, a: Row, b: Row)
    requires Distinct(rows) && a in rows && b in rows && a.id == b.id
    ensures a == b
  {
  }

  /** Own rules removed, or one of them updated: the foreign rules stay as they are. */
  lemma ForeignKept(rows: seq<Row>, ids: set<nat>, marker: string)
    requires Distinct(rows) && ids <= Ids(Own(rows, marker))
    ensures Foreign(Drop(rows, ids), marker) == Foreign(rows, marker)
  {
    OwnDrop(rows, ids, marker);
    forall r | r in Foreign(rows, marker) ensures r.id !in ids {
      if r.id in ids {
        var o :| o in Own(rows, marker) && o.id == r.id;
        SameId(rows, o, r);
        assert false;
      }
    }
    DropNone(Foreign(rows, marker), ids);
  }

  lemma ForeignKeptByUpdate(rows: seq<Row>, o: Row, diff: Fields, marker: string)
    requires Distinct(rows) && o in rows && IsOwn(o, marker)
    requires "comment" in diff ==> diff["comment"] == marker
    ensures Foreign(Update(rows, o.id, diff), marker) == Foreign(rows, marker)
    ensures Own(Update(rows, o.id, diff), marker) == Update(Own(rows, marker), o.id, diff)
  {
    forall r | r in rows && r.id == o.id ensures r == o { SameId(rows, o, r); }
    OwnUpdate(rows, o.id, diff, marker);
    UpdateNone(Foreign(rows, marker), o.id, diff);
  }
}
