/**
 The recovery manager: redo from a checkpoint, then undo what was left unended, in no particular order.
 */
module RecoveryManagement {
  import opened Basics
  import opened LogRecords
  import opened LastWriters
  import opened RecoveryProof
  import opened StrictHistories

  datatype CheckPoint = CheckPoint(checkpointLsn: Lsn, activeTxns: map<Txn, Lsn>, persistData: Database)

  /** The checkpoint was taken just after its record: data and table of unended transactions are what they were then. */
  ghost predicate Matches(cp: CheckPoint, init: Database, log: Log)
    requires Chained(log)
  {
    && 0 <= cp.checkpointLsn < |log|
    && cp.activeTxns == Unended(log, cp.checkpointLsn + 1)
    && Live(init, log, cp.checkpointLsn + 1) == Some(cp.persistData)
  }

  /** The state that undoing the transactions in `done` leaves, seen from the databases before the undo phase and of
      the committed transactions. */
  ghost predicate Undone(init: Database, log: Log, done: set<Txn>, s: Database)
    requires StrictHistory(init, log)
  {
    && (forall t | t in done :: t in Unended(log, |log|))
    && (forall t | t in done :: Agree(s, CommittedOnly(init, log, |log|), Touched(log, |log|, t)))
    && (forall k | (forall t | t in done :: k !in Touched(log, |log|, t)) :: SameAt(s, LiveAt(init, log, |log|), k))
  }

  lemma NothingUndone(init: Database, log: Log, s: Database)
    requires StrictHistory(init, log) && Live(init, log, |log|) == Some(s)
    ensures Undone(init, log, {}, s)
  {
  }

  lemma UndoOneMore(init: Database, log: Log, done: set<Txn>, t: Txn, s: Database)
    requires StrictHistory(init, log) && Undone(init, log, done, s) && t in Unended(log, |log|) && t !in done
    ensures 0 <= Unended(log, |log|)[t] < |log|
    ensures Undone(init, log, done + {t}, UndoChain(log, Unended(log, |log|)[t], s))
  {
    var n := |log|;
    ChainIsPass(init, log, n, t, s);
    StillUnendedNeverCommits(init, log, t);
    forall u | u in done ensures Touched(log, n, u) !! Touched(log, n, t) {
      OwnersApart(init, log, n, u, t);
    }
    Rollback(init, log, n, t, s);
    var s' := UndoAll(log, n, t, s);
    forall u | u in done ensures Agree(s', CommittedOnly(init, log, n), Touched(log, n, u)) {
      assert Agree(s, CommittedOnly(init, log, n), Touched(log, n, u));
    }
    forall k | forall u | u in done + {t} :: k !in Touched(log, n, u) ensures SameAt(s', LiveAt(init, log, n), k) {
      assert t in done + {t};
      assert SameAt(s, LiveAt(init, log, n), k);
    }
  }

  lemma AllUndone(init: Database, log: Log, s: Database)
    requires StrictHistory(init, log) && Undone(init, log, Unended(log, |log|).Keys, s)
    ensures s == CommittedOnly(init, log, |log|)
  {
    var n := |log|;
    var c := CommittedOnly(init, log, n);
    LiveMirrorsCommitted(init, log, n);
    forall k ensures SameAt(s, c, k) {
      if t :| t in Unended(log, n) && k in Touched(log, n, t) {
        assert Agree(s, c, Touched(log, n, t));
      } else {
        assert SameAt(s, LiveAt(init, log, n), k) && !Owned(log, n, k);
      }
    }
    SameEverywhere(s, c);
  }

  lemma SomeMember(s: set<Txn>)
    ensures s == {} || exists t :: t in s
  {
    if forall t :: t !in s {
      assert s == {};
    }
  }

  /** The redo pass of a strict history does not give up, and it brings every key that no transaction left unended has
      written to what its last committed writer says. */
  lemma RedoneIsLastWriter(init: Database, log: Log)
    requires StrictHistory(init, log)
    ensures Live(init, log, |log|).Some?
    ensures forall k :: !Owned(log, |log|, k) ==> LastWriterAt(init, log, |log|, Live(init, log, |log|).value, k)
  {
    var n := |log|;
    LiveDefined(init, log, n);
    LiveMirrorsCommitted(init, log, n);
    var s, c := Live(init, log, n).value, CommittedOnly(init, log, n);
    forall k | !Owned(log, n, k) ensures LastWriterAt(init, log, n, s, k) {
      CommittedLastWriterAt(init, log, n, k);
      assert SameAt(LiveAt(init, log, n), c, k);
      forall i | 0 <= i < n && LastWrite(log, n, i, k) ensures LeftBy(log[i].body, s, k) {
        assert LeftBy(log[i].body, c, k);
      }
    }
  }

  class RecoveryManager {
    var logRecs: Log
    var persistLsn: Lsn
    var activeTxns: map<Txn, Lsn>
    var unendedTxn: map<Txn, Lsn>
    var data: Database

    constructor ()
      ensures logRecs == [] && data == map[]
    {
      logRecs, persistLsn, activeTxns, unendedTxn, data := [], INVALID_LSN, map[], map[], map[];
    }

    method Init(lastCheckpoint: CheckPoint)
      modifies this`persistLsn, this`activeTxns, this`data
      ensures persistLsn == lastCheckpoint.checkpointLsn
      ensures activeTxns == lastCheckpoint.activeTxns && data == lastCheckpoint.persistData
    {
      persistLsn := lastCheckpoint.checkpointLsn;
      activeTxns := lastCheckpoint.activeTxns;
      data := lastCheckpoint.persistData;
    }

    method AppendLogRec(logRec: LogRec)
      requires logRec.lsn == |logRecs|
      modifies this`logRecs
      ensures logRecs == old(logRecs) + [logRec]
    {
      logRecs := logRecs + [logRec];
    }

    /** Follows `prev` from the record at `lastLsn` back to a `Begin`, undoing each record on the way. */
    method UndoTxn(lastLsn: Lsn)
      requires Chained(logRecs) && 0 <= lastLsn < |logRecs|
      modifies this`data
      ensures data == UndoChain(logRecs, lastLsn, old(data))
    {
      var l := lastLsn;
      while !logRecs[l].body.Begin?
        invariant 0 <= l < |logRecs|
        invariant UndoChain(logRecs, l, data) == UndoChain(logRecs, lastLsn, old(data))
        decreases l
      {
        var rec := logRecs[l];
        match rec.body {
          case Update(oldKey, oldVal, newKey, newVal) =>
            data := data - {newKey};
            data := Emplace(data, oldKey, oldVal);
          case Delete(delKey, delVal) =>
            if delKey !in data {
              data := Emplace(data, delKey, delVal);
            }
          case Insert(insKey, insVal) =>
            if insKey in data {
              data := data - {insKey};
            } else {
              assert data - {insKey} == data;
            }
          case _ =>
        }
        l := rec.prev;
      }
    }

    /** One pass from the record after the checkpoint; false where the program exits. */
    method RedoPhase(ghost init: Database) returns (ok: bool)
      requires Chained(logRecs) && 0 <= persistLsn < |logRecs|
      requires activeTxns == Unended(logRecs, persistLsn + 1) && Live(init, logRecs, persistLsn + 1) == Some(data)
      modifies this`unendedTxn, this`data
      ensures ok <==> Live(init, logRecs, |logRecs|).Some?
      ensures ok ==> data == Live(init, logRecs, |logRecs|).value && unendedTxn == Unended(logRecs, |logRecs|)
      ensures StrictHistory(init, logRecs) ==> ok
      ensures StrictHistory(init, logRecs) ==>
        forall k :: !Owned(logRecs, |logRecs|, k) ==> LastWriterAt(init, logRecs, |logRecs|, data, k)
    {
      hide UndoChain, StrictHistory, Owned, LastWriterAt, CommittedOnly;
      if StrictHistory(init, logRecs) {
        RedoneIsLastWriter(init, logRecs);
      }
      unendedTxn := activeTxns;
      var now := persistLsn;
      now := now + 1;
      while now < |logRecs|
        invariant 0 <= now <= |logRecs|
        invariant unendedTxn == Unended(logRecs, now) && Live(init, logRecs, now) == Some(data)
      {
        var rec := logRecs[now];
        unendedTxn := unendedTxn[rec.txn := now];
        match rec.body {
          case Commit =>
            unendedTxn := unendedTxn - {rec.txn};
          case Abort =>
            UndoTxn(rec.prev);
            unendedTxn := unendedTxn - {rec.txn};
          case Update(oldKey, oldVal, newKey, newVal) =>
            data := data - {oldKey};
            data := Emplace(data, newKey, newVal);
          case Delete(delKey, delVal) =>
            if delKey !in data {
              data := data[delKey := 0];
            }
            if data[delKey] == delVal {
              data := data - {delKey};
            }
          case Insert(insKey, insVal) =>
            if insKey in data {
              DeadEnd(init, logRecs, now, |logRecs|);
              return false;
            }
            data := Emplace(data, insKey, insVal);
          case Invalid =>
            DeadEnd(init, logRecs, now, |logRecs|);
            return false;
          case Begin =>
        }
        now := now + 1;
      }
      return true;
    }

    /** Rolls back every transaction in the table, in whatever order they come. */
    method UndoPhase(ghost init: Database)
      requires StrictHistory(init, logRecs) && Live(init, logRecs, |logRecs|) == Some(data)
      requires unendedTxn == Unended(logRecs, |logRecs|)
      modifies this`data
      ensures data == CommittedOnly(init, logRecs, |logRecs|) && LastWriterWins(init, logRecs, |logRecs|, data)
    {
      hide LastWriterWins, Live, CommittedOnly, UndoChain, Unended, Undone;
      var todo := unendedTxn.Keys;
      ghost var all, log := todo, logRecs;
      NothingUndone(init, log, data);
      assert all - todo == {};
      while todo != {}
        invariant todo <= all && logRecs == log && unendedTxn == Unended(log, |log|)
        invariant Undone(init, log, all - todo, data)
        decreases |todo|
      {
        SomeMember(todo);
        var txn :| txn in todo;
        UndoOneMore(init, log, all - todo, txn, data);
        UndoTxn(unendedTxn[txn]);
        assert all - (todo - {txn}) == (all - todo) + {txn};
        todo := todo - {txn};
      }
      assert all - todo == all;
      AllUndone(init, log, data);
      CommittedIsLastWriter(init, log, |log|);
    }

    /**
     Recovery of a strict history: whichever record the checkpoint was taken after, and in whatever order the unended
     transactions are undone, what remains is what the committed transactions did: every key is as the last record
     that a committed transaction wrote it with left it, and no other database is so.
     */
    method Recover(lastCheckpoint: CheckPoint, ghost init: Database) returns (ok: bool)
      requires StrictHistory(init, logRecs) && Matches(lastCheckpoint, init, logRecs)
      modifies this`persistLsn, this`activeTxns, this`unendedTxn, this`data
      ensures ok && LastWriterWins(init, logRecs, |logRecs|, data)
      ensures data == CommittedOnly(init, logRecs, |logRecs|)
    {
      Init(lastCheckpoint);
      ok := RedoPhase(init);
      LiveDefined(init, logRecs, |logRecs|);
      UndoPhase(init);
    }
  }

  lemma {:induction false} DeadEnd(init: Database, log: Log, i: nat, n: nat)
    requires Chained(log) && i < n <= |log| && Live(init, log, i + 1).None?
    ensures Live(init, log, n).None?
  {
    if i + 1 < n {
      DeadEnd(init, log, i, n - 1);
    }
  }

  // ----- how records come to be chained

  /** The record constructor: a counter, and for every transaction its latest record. */
  class LogRecFactory {
    var nextLsn: Lsn
    var prevLsnMap: map<Txn, Lsn>
    ghost var log: Log

    ghost predicate Valid()
      reads this
    {
      && nextLsn == |log|
      && (forall i | 0 <= i < |log| :: log[i].lsn == i && log[i].txn in prevLsnMap)
      && (forall t | t in prevLsnMap :: 0 <= prevLsnMap[t] && LastOf(log, |log|, prevLsnMap[t], t))
    }

    constructor ()
      ensures Valid() && log == []
    {
      nextLsn := 0;
      prevLsnMap := map[];
      log := [];
    }

    /** A record that does not begin a transaction refers to the last one before it, or to 0 when there is none. */
    method Create(txn: Txn, body: Body) returns (rec: LogRec)
      requires Valid()
      modifies this
      ensures Valid() && log == old(log) + [rec] && rec.txn == txn && rec.body == body && rec.lsn == old(nextLsn)
      ensures body.Begin? ==> rec.prev == INVALID_LSN
      ensures !body.Begin? ==>
        if exists i :: 0 <= i < |old(log)| && old(log)[i].txn == txn then
          0 <= rec.prev < rec.lsn && LastOf(old(log), |old(log)|, rec.prev, txn)
        else
          rec.prev == 0
      ensures !body.Begin? && txn in Unended(old(log), |old(log)|) ==> rec.prev == Unended(old(log), |old(log)|)[txn]
      ensures old(Chained(log)) && (body.Begin? || old(nextLsn) > 0) ==> Chained(log)
    {
      hide Unended;
      ghost var was := log;
      var lsn := nextLsn;
      nextLsn := nextLsn + 1;
      var prev := INVALID_LSN;
      if !body.Begin? {
        prev := if txn in prevLsnMap then prevLsnMap[txn] else 0;
      }
      prevLsnMap := prevLsnMap[txn := lsn];
      rec := LogRec(txn, lsn, prev, body);
      log := log + [rec];
      UnendedTable(was, |was|, txn);
    }
  }

  // ----- strictness cannot be left out

  /** Transaction 2 changes and commits what transaction 1 inserted and did not commit. */
  function DirtyWrite(): Log {
    [LogRec(1, 0, INVALID_LSN, Begin), LogRec(1, 1, 0, Insert("k", 1)),
     LogRec(2, 2, INVALID_LSN, Begin), LogRec(2, 3, 2, Update("k", 1, "k", 2)), LogRec(2, 4, 3, Commit)]
  }

  lemma DirtyWriteRun()
    ensures Chained(DirtyWrite())
    ensures Live(map[], DirtyWrite(), 5) == Some(map["k" := 2])
    ensures Unended(DirtyWrite(), 5) == map[1 := 1]
  {
    var log := DirtyWrite();
    assert Live(map[], log, 1) == Some(map[]);
    assert Live(map[], log, 2) == Some(map["k" := 1]);
    assert Live(map[], log, 3) == Some(map["k" := 1]);
    assert Live(map[], log, 4) == Some(map["k" := 2]);
    assert Unended(log, 1) == map[1 := 0];
    assert Unended(log, 2) == map[1 := 1];
    assert Unended(log, 3) == map[1 := 1, 2 := 2];
    assert Unended(log, 4) == map[1 := 1, 2 := 3];
  }

  lemma DirtyWriteCommits()
    ensures CommittedOnly(map[], DirtyWrite(), 5) == map["k" := 2]
  {
    var log := DirtyWrite();
    assert log[4].txn == 2 && log[4].body.Commit?;
    assert Commits(log, 2) && !Commits(log, 1);
    assert CommittedOnly(map[], log, 1) == map[];
    assert CommittedOnly(map[], log, 2) == map[];
    assert CommittedOnly(map[], log, 3) == map[];
    assert CommittedOnly(map[], log, 4) == map["k" := 2];
  }

  /** Without strictness a committed change can be lost: undoing transaction 1 takes away what 2 committed. */
  lemma DirtyWriteIsLost()
    ensures Chained(DirtyWrite()) && !StrictHistory(map[], DirtyWrite())
    ensures Live(map[], DirtyWrite(), 5).Some? && 1 in Unended(DirtyWrite(), 5)
    ensures UndoChain(DirtyWrite(), 1, Live(map[], DirtyWrite(), 5).value) != CommittedOnly(map[], DirtyWrite(), 5)
  {
    var log := DirtyWrite();
    DirtyWriteRun();
    DirtyWriteCommits();
    assert UndoChain(log, 0, map[]) == map[];
    assert UndoChain(log, 1, map["k" := 2]) == map[];
    assert Touched(log, 3, 1) == {"k"} && 1 in Unended(log, 3) by {
      assert Touched(log, 1, 1) == {};
      assert Touched(log, 2, 1) == {"k"};
      assert Unended(log, 1) == map[1 := 0];
      assert Unended(log, 2) == map[1 := 1];
    }
    assert "k" in Keys(log[3].body);
    assert !RecordOk(map[], log, 3);
  }

  /** A strict history with a transaction that commits and one that does not. */
  function TwoTransactions(): Log {
    [LogRec(1, 0, INVALID_LSN, Begin), LogRec(1, 1, 0, Insert("k", 1)),
     LogRec(2, 2, INVALID_LSN, Begin), LogRec(2, 3, 2, Insert("j", 5)), LogRec(2, 4, 3, Commit)]
  }

  lemma TwoTransactionsRun()
    ensures var log := TwoTransactions();
      && Chained(log)
      && Live(map[], log, 1) == Some(map[]) && Live(map[], log, 2) == Some(map["k" := 1])
      && Live(map[], log, 3) == Some(map["k" := 1]) && Live(map[], log, 4) == Some(map["k" := 1, "j" := 5])
  {
  }

  lemma TwoTransactionsTables()
    ensures var log := TwoTransactions();
      && Unended(log, 0) == map[] && Unended(log, 1) == map[1 := 0] && Unended(log, 2) == map[1 := 1]
      && Unended(log, 3) == map[1 := 1, 2 := 2] && Unended(log, 4) == map[1 := 1, 2 := 3]
          && Unended(log, 5) == map[1 := 1]
      && Touched(log, 2, 1) == {"k"} && Touched(log, 3, 1) == {"k"} && Touched(log, 4, 1) == {"k"}
  {
    assert Touched(TwoTransactions(), 1, 1) == {};
  }

  lemma StrictHistoriesExist()
    ensures StrictHistory(map[], TwoTransactions())
    ensures Commits(TwoTransactions(), 2) && 1 in Unended(TwoTransactions(), 5)
  {
    var log := TwoTransactions();
    TwoTransactionsRun();
    TwoTransactionsTables();
    assert RecordOk(map[], log, 0) && RecordOk(map[], log, 1) && RecordOk(map[], log, 2);
    assert RecordOk(map[], log, 3) && RecordOk(map[], log, 4);
    assert log[4].txn == 2 && log[4].body.Commit?;
  }
}
