/** Version chains of `row.rs`: what each chain operation computes, and the operations themselves. */
module Rows {
  import opened Prelude
  import opened Values
  import opened Transactions

  datatype Version = Version(header: Header, data: RowData)

  type Chain = seq<Version>

  /** Position of the newest version visible to `t`, or -1. */
  function VisibleIndex(c: Chain, t: TransactionId, snap: Snapshot): (i: int)
    ensures -1 <= i < |c|
    ensures 0 <= i ==> IsVisible(c[i].header, t, snap)
    ensures forall j :: i < j < |c| ==> !IsVisible(c[j].header, t, snap)
  {
    if c == [] then -1
    else if IsVisible(c[|c| - 1].header, t, snap) then |c| - 1
    else VisibleIndex(c[..|c| - 1], t, snap)
  }

  /** The data `t` reads from the chain. */
  function ReadChain(c: Chain, t: TransactionId, snap: Snapshot): Option<RowData> {
    var i := VisibleIndex(c, t, snap);
    if i < 0 then None else Some(c[i].data)
  }

  function Stamp(v: Version, t: TransactionId): Version {
    v.(header := v.header.(deletedBy := Some(t)))
  }

  /** The chain after `t` deletes the version it sees. */
  function MarkDeleted(c: Chain, t: TransactionId, snap: Snapshot): Chain {
    var i := VisibleIndex(c, t, snap);
    if i < 0 then c else c[i := Stamp(c[i], t)]
  }

  function NewVersion(t: TransactionId, d: RowData): Version {
    Version(Header(t, None), d)
  }

  /** Whether vacuum keeps a version. */
  predicate Kept(v: Version, oldest: TransactionId) {
    v.header.deletedBy.None? || v.header.deletedBy.value >= oldest
  }

  function PruneChain(c: Chain, oldest: TransactionId): Chain {
    if c == [] then []
    else PruneChain(c[..|c| - 1], oldest) + (if Kept(c[|c| - 1], oldest) then [c[|c| - 1]] else [])
  }

  /** Vacuum keeps only `Kept` versions, in their old order. */
  lemma {:induction false} PruneChainIsSubsequence(c: Chain, oldest: TransactionId) returns (at: seq<nat>)
    ensures |at| == |PruneChain(c, oldest)|
    ensures forall k :: 0 <= k < |at| ==> at[k] < |c| && PruneChain(c, oldest)[k] == c[at[k]]
    ensures forall k, l :: 0 <= k < l < |at| ==> at[k] < at[l]
  {
    at := [];
    if c != [] {
      var n := |c| - 1;
      var front := c[..n];
      var p, q := PruneChain(front, oldest), PruneChain(c, oldest);
      var shorter := PruneChainIsSubsequence(front, oldest);
      if Kept(c[n], oldest) {
        at := shorter + [n];
        assert q == p + [c[n]];
        forall k | 0 <= k < |at| ensures at[k] < |c| && q[k] == c[at[k]] {
          if k < |shorter| { assert q[k] == p[k] == front[at[k]]; }
        }
      } else {
        at := shorter;
        assert q == p;
        forall k | 0 <= k < |at| ensures at[k] < |c| && q[k] == c[at[k]] {
          assert p[k] == front[at[k]];
        }
      }
    }
  }

  /** Vacuum keeps every `Kept` version. */
  lemma {:induction false} KeptSurvivesPrune(c: Chain, oldest: TransactionId, i: nat) returns (k: nat)
    requires i < |c| && Kept(c[i], oldest)
    ensures k < |PruneChain(c, oldest)| && PruneChain(c, oldest)[k] == c[i]
    decreases |c|
  {
    var n := |c| - 1;
    if i == n {
      k := |PruneChain(c[..n], oldest)|;
    } else {
      k := KeptSurvivesPrune(c[..n], oldest, i);
    }
  }

  /** What rolling back `t` does to one version. */
  function RollbackVersion(v: Version, t: TransactionId): Version {
    var closed :=
      if v.header.createdBy == t && v.header.deletedBy.None? then Stamp(v, t) else v;
    if closed.header.deletedBy == Some(t) && closed.header.createdBy != t
    then closed.(header := closed.header.(deletedBy := None))
    else closed
  }

  function RollbackChain(c: Chain, t: TransactionId): Chain {
    seq(|c|, i requires 0 <= i < |c| => RollbackVersion(c[i], t))
  }

  /** A row object: its version chain, changed in place. */
  class Row {
    var versions: Chain

    constructor (t: TransactionId, data: RowData)
      ensures versions == [NewVersion(t, data)]
    {
      versions := [NewVersion(t, data)];
    }

    /** Newest visible version, searching from the back. */
    method GetVersionedRow(t: TransactionId, snap: Snapshot) returns (found: Option<Version>)
      ensures found.None? <==> forall i :: 0 <= i < |versions| ==> !IsVisible(versions[i].header, t, snap)
      ensures found.Some? ==>
        (exists i :: 0 <= i < |versions| && versions[i] == found.value
                     && IsVisible(versions[i].header, t, snap)
                     && (forall j :: i < j < |versions| ==> !IsVisible(versions[j].header, t, snap)))
      ensures (match found case None => None case Some(v) => Some(v.data)) == ReadChain(versions, t, snap)
    {
      var i := |versions|;
      while i > 0
        invariant 0 <= i <= |versions|
        invariant forall j :: i <= j < |versions| ==> !IsVisible(versions[j].header, t, snap)
      {
        i := i - 1;
        if IsVisible(versions[i].header, t, snap) {
          assert VisibleIndex(versions, t, snap) == i;
          return Some(versions[i]);
        }
      }
      return None;
    }

    /** Delete the newest version visible to `t`. */
    method Remove(t: TransactionId, snap: Snapshot)
      modifies this
      ensures versions == MarkDeleted(old(versions), t, snap)
    {
      var i := |versions|;
      while i > 0
        invariant 0 <= i <= |versions|
        invariant versions == old(versions)
        invariant forall j :: i <= j < |versions| ==> !IsVisible(versions[j].header, t, snap)
      {
        i := i - 1;
        if IsVisible(versions[i].header, t, snap) {
          assert VisibleIndex(versions, t, snap) == i;
          versions := versions[i := Stamp(versions[i], t)];
          return;
        }
      }
      assert VisibleIndex(versions, t, snap) == -1;
    }

    /** Replace the newest version visible to `t`, appending the new data. */
    method Update(t: TransactionId, snap: Snapshot, data: RowData)
      modifies this
      ensures versions == MarkDeleted(old(versions), t, snap) + [NewVersion(t, data)]
    {
      Remove(t, snap);
      versions := versions + [NewVersion(t, data)];
    }

    /** Drop the versions whose deleter is older than every active transaction. */
    method Prune(oldest: TransactionId)
      modifies this
      ensures versions == PruneChain(old(versions), oldest)
    {
      var kept: Chain := [];
      var i := 0;
      while i < |versions|
        invariant 0 <= i <= |versions|
        invariant versions == old(versions)
        invariant kept == PruneChain(versions[..i], oldest)
      {
        assert versions[..i + 1][..i] == versions[..i];
        if Kept(versions[i], oldest) {
          kept := kept + [versions[i]];
        }
        i := i + 1;
      }
      assert versions[..i] == versions;
      versions := kept;
    }

    /** Undo the effect of `t` on every version. */
    method RollbackTransaction(t: TransactionId)
      modifies this
      ensures versions == RollbackChain(old(versions), t)
    {
      var i := 0;
      while i < |versions|
        invariant 0 <= i <= |versions| == |old(versions)|
        invariant forall j :: 0 <= j < i ==> versions[j] == RollbackVersion(old(versions)[j], t)
        invariant forall j :: i <= j < |versions| ==> versions[j] == old(versions)[j]
      {
        var h := versions[i].header;
        if h.createdBy == t {
          if h.deletedBy.None? {
            versions := versions[i := Stamp(versions[i], t)];
          }
        }
        h := versions[i].header;
        if h.deletedBy == Some(t) && h.createdBy != t {
          versions := versions[i := versions[i].(header := h.(deletedBy := None))];
        }
        i := i + 1;
      }
    }
  }
}
