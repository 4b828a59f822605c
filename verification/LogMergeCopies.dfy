/** What merging does with the copies of a row that several ranks logged. */
module LogMergeCopies {
  import opened Orders
  import opened LogReconstruction
  import opened LogMerge

  datatype Copy = Copy(rank: nat, key: Key, row: LogRow)

  ghost function CopiesOf(log: RankLog): seq<Copy> {
    seq(|log.rows|, i requires 0 <= i < |log.rows| => Copy(log.rank, KeyAt(log.rows, i), log.rows[i]))
  }

  /** The logged rows of the first `upTo` ranks, rank after rank, each under its key. */
  ghost function Copies(logs: seq<RankLog>, upTo: nat): seq<Copy>
    requires upTo <= |logs|
  {
    if upTo == 0 then [] else Copies(logs, upTo - 1) + CopiesOf(logs[upTo - 1])
  }

  /** No earlier copy has the same key. */
  ghost predicate First(copies: seq<Copy>, i: nat)
    requires i < |copies|
  {
    forall j :: 0 <= j < i ==> copies[j].key != copies[i].key
  }

  ghost predicate Clash(copies: seq<Copy>, i: nat, j: nat)
    requires i < |copies| && j < |copies|
  {
    copies[i].key == copies[j].key && !Agree(copies[i].row, copies[j].row)
  }

  /** The merge of some copies: no two clash, each key keeps its first row, and the ranks that gave one are listed. */
  ghost predicate Merges(copies: seq<Copy>, m: Merge) {
    && m.Merged?
    && (forall i, j :: 0 <= i < |copies| && 0 <= j < |copies| ==> !Clash(copies, i, j))
    && (forall k :: k in m.rows ==> exists i :: 0 <= i < |copies| && copies[i].key == k)
    && (forall i :: 0 <= i < |copies| ==> copies[i].key in m.rows)
    && (forall i :: 0 <= i < |copies| && First(copies, i) ==> m.rows[copies[i].key] == copies[i].row)
    && (forall r :: r in m.used <==> exists i :: 0 <= i < |copies| && First(copies, i) && copies[i].rank == r)
  }

  /** The key of a conflict has two copies that clash. */
  ghost predicate Clashes(copies: seq<Copy>, m: Merge) {
    m.Conflict? && exists i, j :: 0 <= i < j < |copies| && Clash(copies, i, j) && copies[j].key == m.key
  }

  function Take(m: Merge, c: Copy): Merge {
    if m.Conflict? then m
    else if c.key !in m.rows then Merged(m.rows[c.key := c.row], m.used + {c.rank})
    else if !Agree(m.rows[c.key], c.row) then Conflict(c.key)
    else m
  }

  lemma {:induction false} FirstExists(copies: seq<Copy>, i: nat) returns (f: nat)
    requires i < |copies|
    ensures f <= i && First(copies, f) && copies[f].key == copies[i].key
  {
    if First(copies, i) {
      f := i;
    } else {
      var j :| 0 <= j < i && copies[j].key == copies[i].key;
      f := FirstExists(copies, j);
    }
  }

  lemma FirstNext(copies: seq<Copy>, c: Copy, i: nat)
    requires i < |copies|
    ensures First(copies + [c], i) <==> First(copies, i)
  {
    assert forall j :: 0 <= j <= i ==> (copies + [c])[j] == copies[j];
  }

  /** Taking one more copy. */
  lemma TakeMerges(copies: seq<Copy>, m: Merge, c: Copy)
    requires Merges(copies, m)
    ensures if Take(m, c).Merged? then Merges(copies + [c], Take(m, c)) else Clashes(copies + [c], Take(m, c))
  {
    if c.key !in m.rows {
      TakeNew(copies, m, c);
    } else {
      var i :| 0 <= i < |copies| && copies[i].key == c.key;
      var f := FirstExists(copies, i);
      if Agree(m.rows[c.key], c.row) {
        TakeOld(copies, m, c, f);
      } else {
        assert Clash(copies + [c], f, |copies|);
      }
    }
  }

  lemma TakeNew(copies: seq<Copy>, m: Merge, c: Copy)
    requires Merges(copies, m) && c.key !in m.rows
    ensures Merges(copies + [c], Take(m, c))
  {
    var all, n := copies + [c], |copies|;
    forall i | 0 <= i < n
      ensures First(all, i) <==> First(copies, i)
    {
      FirstNext(copies, c, i);
    }
    assert First(all, n);
    forall i, j | 0 <= i < |all| && 0 <= j < |all|
      ensures !Clash(all, i, j)
    {
      assert i < n && j < n ==> !Clash(copies, i, j);
    }
    hide First;
    forall k | k in Take(m, c).rows
      ensures exists i :: 0 <= i < |all| && all[i].key == k
    {
      KeyListed(copies, m, c, k);
    }
    UsedNext(copies, m, c);
  }

  lemma KeyListed(copies: seq<Copy>, m: Merge, c: Copy, k: Key)
    requires Merges(copies, m) && (k in m.rows || k == c.key)
    ensures exists i :: 0 <= i < |copies + [c]| && (copies + [c])[i].key == k
  {
    hide First, Clash;
    var all, n := copies + [c], |copies|;
    if k == c.key {
      assert all[n].key == k;
    } else {
      var i :| 0 <= i < n && copies[i].key == k;
      assert all[i].key == k;
    }
  }

  lemma UsedNext(copies: seq<Copy>, m: Merge, c: Copy)
    requires Merges(copies, m)
    ensures forall r :: (exists i :: 0 <= i < |copies + [c]| && First(copies + [c], i) && (copies + [c])[i].rank == r)
                        <==> r in m.used || (First(copies + [c], |copies|) && r == c.rank)
  {
    var all, n := copies + [c], |copies|;
    forall i | 0 <= i < n
      ensures First(all, i) <==> First(copies, i)
    {
      FirstNext(copies, c, i);
    }
    hide First;
    forall r
      ensures (exists i :: 0 <= i < |all| && First(all, i) && all[i].rank == r)
              <==> r in m.used || (First(all, n) && r == c.rank)
    {
      if r in m.used {
        var i :| 0 <= i < n && First(copies, i) && copies[i].rank == r;
        assert First(all, i) && all[i].rank == r;
      }
      if First(all, n) && r == c.rank {
        assert all[n].rank == r;
      }
    }
  }

  lemma TakeOld(copies: seq<Copy>, m: Merge, c: Copy, f: nat)
    requires Merges(copies, m) && f < |copies| && First(copies, f) && copies[f].key == c.key
    requires Agree(m.rows[c.key], c.row)
    ensures Merges(copies + [c], m)
  {
    var all, n := copies + [c], |copies|;
    assert all[f].key == all[n].key;
    assert !First(all, n);
    UsedNext(copies, m, c);
    forall i | 0 <= i < n
      ensures First(all, i) <==> First(copies, i)
    {
      FirstNext(copies, c, i);
    }
    hide First;
    forall i, j | 0 <= i < |all| && 0 <= j < |all|
      ensures !Clash(all, i, j)
    {
      AgreesWithAll(copies, c, f, i, j);
    }
    forall k | k in m.rows
      ensures exists i :: 0 <= i < |all| && all[i].key == k
    {
      KeyListed(copies, m, c, k);
    }
  }

  lemma AgreesWithAll(copies: seq<Copy>, c: Copy, f: nat, i: nat, j: nat)
    requires f < |copies| && copies[f].key == c.key && Agree(copies[f].row, c.row) && i <= |copies| && j <= |copies|
    requires forall i, j :: 0 <= i < |copies| && 0 <= j < |copies| ==> !Clash(copies, i, j)
    ensures !Clash(copies + [c], i, j)
  {
    if i < |copies| {
      assert !Clash(copies, i, f);
      if j < |copies| {
        assert !Clash(copies, i, j);
      }
    } else if j < |copies| {
      assert !Clash(copies, f, j);
    }
  }

  lemma ClashesStay(copies: seq<Copy>, m: Merge, c: Copy)
    requires Clashes(copies, m)
    ensures Clashes(copies + [c], m)
  {
    var i, j :| 0 <= i < j < |copies| && Clash(copies, i, j) && copies[j].key == m.key;
    assert Clash(copies + [c], i, j);
  }

  ghost predicate Outcome(copies: seq<Copy>, m: Merge) {
    Merges(copies, m) || Clashes(copies, m)
  }

  lemma {:induction false} RankOutcome(earlier: seq<Copy>, before: Merge, log: RankLog, upTo: nat)
    requires Outcome(earlier, before) && upTo <= |log.rows|
    ensures Outcome(earlier + CopiesOf(log)[..upTo], MergeRank(before, log, upTo))
  {
    hide Merges, Clashes;
    if upTo == 0 {
      assert earlier + CopiesOf(log)[..0] == earlier;
    } else {
      RankOutcome(earlier, before, log, upTo - 1);
      var sofar, m, c := earlier + CopiesOf(log)[..upTo - 1], MergeRank(before, log, upTo - 1), CopiesOf(log)[upTo - 1];
      assert earlier + CopiesOf(log)[..upTo] == sofar + [c];
      if Merges(sofar, m) {
        MergedNotConflict(sofar, m);
        TakeMerges(sofar, m, c);
      } else {
        ConflictNotMerged(sofar, m);
        ClashesStay(sofar, m, c);
      }
    }
  }

  lemma MergedNotConflict(copies: seq<Copy>, m: Merge)
    requires Merges(copies, m)
    ensures m.Merged?
  {
  }

  lemma ConflictNotMerged(copies: seq<Copy>, m: Merge)
    requires Clashes(copies, m)
    ensures m.Conflict?
  {
  }

  lemma {:induction false} RanksOutcome(logs: seq<RankLog>, upTo: nat)
    requires upTo <= |logs|
    ensures Outcome(Copies(logs, upTo), MergeRanks(logs, upTo))
  {
    if upTo > 0 {
      hide Outcome, MergeRank;
      RanksOutcome(logs, upTo - 1);
      var log := logs[upTo - 1];
      RankOutcome(Copies(logs, upTo - 1), MergeRanks(logs, upTo - 1), log, |log.rows|);
      assert CopiesOf(log)[..|log.rows|] == CopiesOf(log);
    }
  }

  /**
    For all logs: merging reports a conflict exactly when two logged copies of one key disagree, and
    names such a key; otherwise it keeps the first copy of every logged key and lists exactly the
    ranks that logged a first copy.
   */
  lemma MergeExactly(logs: seq<RankLog>)
    ensures var copies, m := Copies(logs, |logs|), MergeRanks(logs, |logs|);
            && (m.Conflict? <==> exists i, j :: 0 <= i < j < |copies| && Clash(copies, i, j))
            && (if m.Conflict? then Clashes(copies, m) else Merges(copies, m))
  {
    RanksOutcome(logs, |logs|);
  }

  /** The merged rows are listed by step, then layer, then request id, then row number, each key once. */
  lemma MergedInOrder(rows: map<Key, LogRow>, i: nat, j: nat)
    requires i < j < |MergedRows(rows)|
    ensures exists a, b :: a in rows && b in rows && MergedRows(rows)[i] == rows[a] && MergedRows(rows)[j] == rows[b]
                           && a.step <= b.step && (a.step == b.step ==> a.layer <= b.layer)
                           && (a.step == b.step && a.layer == b.layer ==> a.request == b.request || StringLess(a.request, b.request))
                           && (a.step == b.step && a.layer == b.layer && a.request == b.request ==> a.row < b.row)
  {
    hide KeyLess;
    KeyOrder();
    var keys := Sorted(rows.Keys, KeyLess);
    assert keys[i] in keys && keys[j] in keys && KeyLess(keys[i], keys[j]);
    KeyFields(keys[i], keys[j]);
  }

  lemma KeyFields(a: Key, b: Key)
    requires KeyLess(a, b)
    ensures a.step <= b.step && (a.step == b.step ==> a.layer <= b.layer)
    ensures a.step == b.step && a.layer == b.layer ==> a.request == b.request || StringLess(a.request, b.request)
    ensures a.step == b.step && a.layer == b.layer && a.request == b.request ==> a.row < b.row
  {
    hide StringLess;
    StringOrder();
  }
}
