/** The hash index of a UNIQUE or PRIMARY KEY column (`column.rs`), changed in place. */
module ColumnIndex {
  import opened Prelude
  import opened Values
  import opened Transactions

  datatype Entry = Entry(key: nat, row: RowId)

  /** Row ids under each key, and which transaction added each entry last. */
  datatype Index = Index(entries: map<nat, set<RowId>>, addedBy: map<Entry, TransactionId>)

  const EmptyIndex: Index := Index(map[], map[])

  predicate Holds(ix: Index, e: Entry) {
    e.key in ix.entries && e.row in ix.entries[e.key]
  }

  /** Keys with no rows are never kept. */
  predicate Tidy(ix: Index) {
    forall k :: k in ix.entries ==> ix.entries[k] != {}
  }

  function Add(ix: Index, e: Entry, t: TransactionId): Index {
    var rows: set<RowId> := if e.key in ix.entries then ix.entries[e.key] else {};
    Index(ix.entries[e.key := rows + {e.row}], ix.addedBy[e := t])
  }

  /** The index without the entries that `drop` names. */
  ghost function Without(ix: Index, drop: set<Entry>): Index {
    Index(map k | k in ix.entries && (exists r :: r in ix.entries[k] && Entry(k, r) !in drop) ::
            (set r | r in ix.entries[k] && Entry(k, r) !in drop),
          ix.addedBy - drop)
  }

  /** Rollback drops the entries last added by `t`, whoever added them first. */
  ghost function RollbackIndex(ix: Index, t: TransactionId): Index {
    Without(ix, set e | e in ix.addedBy && ix.addedBy[e] == t)
  }

  /** Vacuum drops the entries of rows that are no longer alive. */
  ghost function PruneIndex(ix: Index, alive: set<RowId>): Index {
    Without(ix, set k, r | k in ix.entries && r in ix.entries[k] && r !in alive :: Entry(k, r))
  }

  lemma WithoutHolds(ix: Index, drop: set<Entry>)
    ensures forall e :: Holds(Without(ix, drop), e) <==> Holds(ix, e) && e !in drop
    ensures Tidy(Without(ix, drop))
  {
    var w := Without(ix, drop);
    forall e ensures Holds(w, e) <==> Holds(ix, e) && e !in drop {
      assert e == Entry(e.key, e.row);
    }
    forall k | k in w.entries
      ensures w.entries[k] != {}
    {
      var r :| r in ix.entries[k] && Entry(k, r) !in drop;
      assert r in w.entries[k];
    }
  }

  /** Two tidy indexes with the same entries and owners are the same index. */
  lemma SameEntries(a: Index, b: Index)
    requires Tidy(a) && Tidy(b) && a.addedBy == b.addedBy
    requires forall e :: Holds(a, e) <==> Holds(b, e)
    ensures a == b
  {
    SubEntries(a, b);
    SubEntries(b, a);
    assert forall k :: k in a.entries <==> k in b.entries;
    assert forall k :: k in a.entries ==> a.entries[k] == b.entries[k];
    assert a.entries == b.entries;
  }

  lemma SubEntries(a: Index, b: Index)
    requires Tidy(a) && forall e :: Holds(a, e) ==> Holds(b, e)
    ensures forall k :: k in a.entries ==> k in b.entries && a.entries[k] <= b.entries[k]
  {
    forall k | k in a.entries
      ensures k in b.entries && a.entries[k] <= b.entries[k]
    {
      forall r | r in a.entries[k] ensures k in b.entries && r in b.entries[k] {
        assert Holds(a, Entry(k, r));
      }
      var r :| r in a.entries[k];
    }
  }

  class Column {
    var entries: map<nat, set<RowId>>
    var addedBy: map<Entry, TransactionId>

    ghost function Contents(): Index
      reads this
    {
      Index(entries, addedBy)
    }

    constructor ()
      ensures Contents() == EmptyIndex && Tidy(Contents())
    {
      entries, addedBy := map[], map[];
    }

    method UpdateIndex(v: Value, hash: Value -> nat, r: RowId, t: TransactionId)
      requires Tidy(Contents())
      modifies this
      ensures Tidy(Contents()) && Contents() == Add(old(Contents()), Entry(Key(v, hash), r), t)
    {
      var k := Key(v, hash);
      var rows: set<RowId> := {};
      if k in entries {
        rows := entries[k];
      }
      entries := entries[k := rows + {r}];
      addedBy := addedBy[Entry(k, r) := t];
    }

    /** Take the named entries out one by one, and a key with its last row. */
    method RemoveEntries(doomed: set<Entry>)
      requires Tidy(Contents())
      modifies this
      ensures Tidy(Contents()) && Contents() == Without(old(Contents()), doomed)
    {
      var todo := doomed;
      while todo != {}
        invariant todo <= doomed && Tidy(Contents())
        invariant addedBy == old(addedBy) - (doomed - todo)
        invariant forall e :: Holds(Contents(), e) <==> old(Holds(Contents(), e)) && e !in doomed - todo
        decreases |todo|
      {
        var e :| e in todo;
        RemoveEntry(e);
        todo := todo - {e};
      }
      assert doomed - todo == doomed;
      WithoutHolds(old(Contents()), doomed);
      SameEntries(Contents(), Without(old(Contents()), doomed));
    }

    method RemoveEntry(e: Entry)
      requires Tidy(Contents())
      modifies this
      ensures Tidy(Contents()) && addedBy == old(addedBy) - {e}
      ensures forall x :: Holds(Contents(), x) <==> old(Holds(Contents(), x)) && x != e
    {
      if e.key in entries {
        var rows := entries[e.key] - {e.row};
        if rows == {} {
          assert forall r :: r in entries[e.key] && r != e.row ==> r in rows;
          entries := entries - {e.key};
        } else {
          entries := entries[e.key := rows];
        }
      }
      addedBy := addedBy - {e};
      assert forall x: Entry :: x == e <==> x.key == e.key && x.row == e.row;
    }

    /** Undo the entries last added by `t`. */
    method RollbackIndexTransaction(t: TransactionId)
      requires Tidy(Contents())
      modifies this
      ensures Tidy(Contents()) && Contents() == RollbackIndex(old(Contents()), t)
    {
      RemoveEntries(set e | e in addedBy && addedBy[e] == t);
    }

    /** Vacuum: forget rows that are no longer alive. */
    method Prune(alive: set<RowId>)
      requires Tidy(Contents())
      modifies this
      ensures Tidy(Contents()) && Contents() == PruneIndex(old(Contents()), alive)
    {
      RemoveEntries(set k, r | k in entries && r in entries[k] && r !in alive :: Entry(k, r));
    }

    /** The UNIQUE / PRIMARY KEY check: another row under the key shows the same value. */
    method UniqueViolated(v: Value, hash: Value -> nat, shown: map<RowId, Value>, exclude: Option<RowId>)
      returns (clash: bool)
      ensures clash <==> exists r :: Holds(Contents(), Entry(Key(v, hash), r)) && Some(r) != exclude
                                     && r in shown && shown[r] == v
    {
      var k := Key(v, hash);
      if k !in entries {
        return false;
      }
      var todo := entries[k];
      while todo != {}
        invariant todo <= entries[k]
        invariant forall r :: r in entries[k] && r !in todo ==> !(Some(r) != exclude && r in shown && shown[r] == v)
        decreases |todo|
      {
        var r :| r in todo;
        if Some(r) != exclude && r in shown && shown[r] == v {
          assert Holds(Contents(), Entry(k, r));
          return true;
        }
        todo := todo - {r};
      }
      return false;
    }
  }
}
