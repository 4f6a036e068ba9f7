/**
 Log records, the redo and undo of a single record, and what makes a log a faithful and strict history.
 */
module LogRecords {
  import opened Basics

  type Txn = int
  type Lsn = int
  type Key = string
  type Val = int
  type Database = map<Key, Val>

  const INVALID_LSN: Lsn := -1

  datatype Body =
    | Invalid
    | Insert(insKey: Key, insVal: Val)
    | Delete(delKey: Key, delVal: Val)
    | Update(oldKey: Key, oldVal: Val, newKey: Key, newVal: Val)
    | Begin
    | Commit
    | Abort

  datatype LogRec = LogRec(txn: Txn, lsn: Lsn, prev: Lsn, body: Body)

  /** Position in the log and log sequence number coincide, as the record constructor numbers them. */
  type Log = seq<LogRec>

  /** `unordered_map::emplace`: an entry that is there stays. */
  function Emplace(s: Database, k: Key, v: Val): Database {
    if k in s then s else s[k := v]
  }

  // ----- one record

  function UndoBody(s: Database, body: Body): Database {
    match body
    case Update(ok, ov, nk, nv) => Emplace(s - {nk}, ok, ov)
    case Delete(k, v) => Emplace(s, k, v)
    case Insert(k, v) => s - {k}
    case _ => s
  }

  /** Every record but a transaction's first refers to an earlier one. */
  ghost predicate Chained(log: Log) {
    forall i | 0 <= i < |log| && !log[i].body.Begin? :: 0 <= log[i].prev < i
  }

  /** The rollback of a transaction, from the record at `l` back to its `Begin`. */
  ghost function UndoChain(log: Log, l: nat, s: Database): Database
    requires Chained(log) && l < |log|
    decreases l
  {
    if log[l].body.Begin? then s else UndoChain(log, log[l].prev, UndoBody(s, log[l].body))
  }

  /** Redoing a `Delete` looks the key up with `operator[]`, which enters 0 for a missing key. */
  function RedoDelete(s: Database, k: Key, v: Val): Database {
    var looked := if k in s then s else s[k := 0];
    if looked[k] != v then looked else looked - {k}
  }

  /** `None` where the program gives up. */
  ghost function RedoRecord(log: Log, i: nat, s: Database): Option<Database>
    requires Chained(log) && i < |log|
  {
    match log[i].body
    case Insert(k, v) => if k in s then None else Some(s[k := v])
    case Delete(k, v) => Some(RedoDelete(s, k, v))
    case Update(ok, ov, nk, nv) => Some(Emplace(s - {ok}, nk, nv))
    case Abort => Some(UndoChain(log, log[i].prev, s))
    case Invalid => None
    case Begin | Commit => Some(s)
  }

  /** The database after the first `n` records, each abort rolled back where it is logged. */
  ghost function Live(init: Database, log: Log, n: nat): Option<Database>
    requires Chained(log) && n <= |log|
  {
    if n == 0 then Some(init)
    else
      match Live(init, log, n - 1)
      case None => None
      case Some(s) => RedoRecord(log, n - 1, s)
  }

  /** The transactions that have not ended after `n` records, with the last record of each. */
  ghost function Unended(log: Log, n: nat): map<Txn, Lsn>
    requires n <= |log|
  {
    if n == 0 then map[]
    else
      var r := log[n - 1];
      var seen := Unended(log, n - 1)[r.txn := n - 1];
      if r.body.Commit? || r.body.Abort? then seen - {r.txn} else seen
  }

  // ----- faithful, strict histories

  function Keys(body: Body): set<Key> {
    match body
    case Insert(k, v) => {k}
    case Delete(k, v) => {k}
    case Update(ok, ov, nk, nv) => {ok, nk}
    case _ => {}
  }

  /** The keys that transaction `t` wrote in the first `n` records. */
  ghost function Touched(log: Log, n: nat, t: Txn): set<Key>
    requires n <= |log|
  {
    if n == 0 then {}
    else Touched(log, n - 1, t) + if log[n - 1].txn == t then Keys(log[n - 1].body) else {}
  }

  /** The record describes a change that the database allows. */
  predicate Applicable(s: Database, body: Body) {
    match body
    case Insert(k, v) => k !in s
    case Delete(k, v) => k in s && s[k] == v
    case Update(ok, ov, nk, nv) => ok in s && s[ok] == ov && (nk == ok || nk !in s)
    case Invalid => false
    case _ => true
  }

  /**
   Record `i` belongs to a transaction under way, or begins a new one; it tells the truth about the database it is
   applied to; and it touches no key that another unended transaction has written.
   */
  ghost predicate RecordOk(init: Database, log: Log, i: nat)
    requires Chained(log) && i < |log|
  {
    var r := log[i];
    && (if r.body.Begin? then
          forall j | 0 <= j < i :: log[j].txn != r.txn
        else
          r.txn in Unended(log, i) && r.prev == Unended(log, i)[r.txn])
    && Live(init, log, i).Some?
    && Applicable(Live(init, log, i).value, r.body)
    && forall t | t in Unended(log, i) && t != r.txn :: Keys(r.body) !! Touched(log, i, t)
  }

  ghost predicate StrictHistory(init: Database, log: Log) {
    Chained(log) && forall i | 0 <= i < |log| :: RecordOk(init, log, i)
  }

  ghost predicate Commits(log: Log, t: Txn) {
    exists i :: 0 <= i < |log| && log[i].txn == t && log[i].body.Commit?
  }

  /** A data record applied to a database that allows it. */
  function Apply(s: Database, body: Body): Database {
    match body
    case Insert(k, v) => s[k := v]
    case Delete(k, v) => s - {k}
    case Update(ok, ov, nk, nv) => (s - {ok})[nk := nv]
    case _ => s
  }

  /** The reference: only what committed transactions did, in log order. */
  ghost function CommittedOnly(init: Database, log: Log, n: nat): Database
    requires n <= |log|
  {
    if n == 0 then init
    else
      var s := CommittedOnly(init, log, n - 1);
      if Commits(log, log[n - 1].txn) then Apply(s, log[n - 1].body) else s
  }
}

/**
 What a log means, key by key: the last record of a committed transaction that writes a key decides it, and a key that
 none writes is as it was at the start. Nothing here is computed by applying records.
 */
module LastWriters {
  import opened Basics
  import opened LogRecords

  ghost predicate SameAt(s: Database, d: Database, k: Key) {
    (k in s <==> k in d) && (k in s ==> s[k] == d[k])
  }

  lemma SameEverywhere(s: Database, d: Database)
    requires forall k :: SameAt(s, d, k)
    ensures s == d
  {
    forall k ensures k in s <==> k in d {
      assert SameAt(s, d, k);
    }
    forall k | k in s ensures s[k] == d[k] {
      assert SameAt(s, d, k);
    }
  }

  predicate Writes(body: Body, k: Key) {
    || (body.Insert? && body.insKey == k)
    || (body.Delete? && body.delKey == k)
    || (body.Update? && (body.oldKey == k || body.newKey == k))
  }

  ghost predicate CommittedWrite(log: Log, i: nat, k: Key)
    requires i < |log|
  {
    Writes(log[i].body, k) && exists c :: 0 <= c < |log| && log[c].txn == log[i].txn && log[c].body.Commit?
  }

  /** Of the first `n` records, record `i` is the last that a committed transaction wrote `k` with. */
  ghost predicate LastWrite(log: Log, n: nat, i: nat, k: Key)
    requires n <= |log|
  {
    i < n && CommittedWrite(log, i, k) && forall j | i < j < n :: !CommittedWrite(log, j, k)
  }

  /** How a record leaves a key it writes: an insertion and the new key of an update with the value they log, a deleted
      key and the old key of an update that moves it without one. */
  predicate LeftBy(body: Body, s: Database, k: Key) {
    && (body.Insert? ==> k in s && s[k] == body.insVal)
    && (body.Delete? ==> k !in s)
    && (body.Update? && k == body.newKey ==> k in s && s[k] == body.newVal)
    && (body.Update? && k != body.newKey ==> k !in s)
  }

  ghost predicate LastWriterAt(init: Database, log: Log, n: nat, s: Database, k: Key)
    requires n <= |log|
  {
    && ((forall i | 0 <= i < n :: !CommittedWrite(log, i, k)) ==> SameAt(s, init, k))
    && (forall i | 0 <= i < n && LastWrite(log, n, i, k) :: LeftBy(log[i].body, s, k))
  }

  ghost predicate LastWriterWins(init: Database, log: Log, n: nat, s: Database)
    requires n <= |log|
  {
    forall k :: LastWriterAt(init, log, n, s, k)
  }

  lemma AppliedAt(s: Database, body: Body, k: Key)
    ensures if Writes(body, k) then LeftBy(body, Apply(s, body), k) else SameAt(Apply(s, body), s, k)
  {
  }

  /** Applying what the committed transactions did, in log order, gives every key what its last writer says. */
  lemma {:induction false} CommittedLastWriterAt(init: Database, log: Log, n: nat, k: Key)
    requires n <= |log|
    ensures LastWriterAt(init, log, n, CommittedOnly(init, log, n), k)
  {
    hide CommittedWrite, LeftBy, Apply;
    if n > 0 {
      CommittedLastWriterAt(init, log, n - 1, k);
      CommittedStep(init, log, n, k);
      LastWriterStep(init, log, n, CommittedOnly(init, log, n - 1), CommittedOnly(init, log, n), k);
    }
  }

  lemma CommittedStep(init: Database, log: Log, n: nat, k: Key)
    requires 0 < n <= |log|
    ensures var s, d := CommittedOnly(init, log, n - 1), CommittedOnly(init, log, n);
      if CommittedWrite(log, n - 1, k) then LeftBy(log[n - 1].body, d, k) else SameAt(d, s, k)
  {
    hide Writes, LeftBy, Apply;
    AppliedAt(CommittedOnly(init, log, n - 1), log[n - 1].body, k);
    assert Commits(log, log[n - 1].txn) && Writes(log[n - 1].body, k) <==> CommittedWrite(log, n - 1, k);
  }

  lemma LastWriterStep(init: Database, log: Log, n: nat, s: Database, d: Database, k: Key)
    requires 0 < n <= |log| && LastWriterAt(init, log, n - 1, s, k)
    requires if CommittedWrite(log, n - 1, k) then LeftBy(log[n - 1].body, d, k) else SameAt(d, s, k)
    ensures LastWriterAt(init, log, n, d, k)
  {
    hide CommittedWrite;
    forall i | 0 <= i < n && LastWrite(log, n, i, k) ensures LeftBy(log[i].body, d, k) {
      if i < n - 1 {
        assert !CommittedWrite(log, n - 1, k);
        assert LastWrite(log, n - 1, i, k);
      }
    }
  }

  lemma CommittedIsLastWriter(init: Database, log: Log, n: nat)
    requires n <= |log|
    ensures LastWriterWins(init, log, n, CommittedOnly(init, log, n))
  {
    forall k ensures LastWriterAt(init, log, n, CommittedOnly(init, log, n), k) {
      CommittedLastWriterAt(init, log, n, k);
    }
  }

  /** A key that a committed transaction wrote has a last writer. */
  lemma {:induction false} SomeLastWrite(log: Log, n: nat, i: nat, k: Key) returns (last: nat)
    requires i < n <= |log| && CommittedWrite(log, i, k)
    ensures last < n && LastWrite(log, n, last, k)
  {
    if CommittedWrite(log, n - 1, k) {
      last := n - 1;
    } else {
      last := SomeLastWrite(log, n - 1, i, k);
    }
  }

  lemma LastWriterAtDetermines(init: Database, log: Log, n: nat, s: Database, d: Database, k: Key)
    requires n <= |log| && LastWriterAt(init, log, n, s, k) && LastWriterAt(init, log, n, d, k)
    ensures SameAt(s, d, k)
  {
    if i :| 0 <= i < n && CommittedWrite(log, i, k) {
      var last := SomeLastWrite(log, n, i, k);
      assert Writes(log[last].body, k);
    }
  }

  /** The law leaves no choice: one database at most satisfies it. */
  lemma LastWriterDetermines(init: Database, log: Log, n: nat, s: Database, d: Database)
    requires n <= |log| && LastWriterWins(init, log, n, s) && LastWriterWins(init, log, n, d)
    ensures s == d
  {
    forall k ensures SameAt(s, d, k) {
      LastWriterAtDetermines(init, log, n, s, d, k);
    }
    SameEverywhere(s, d);
  }

  /** Record `i` is the last that transaction `t` logged among the first `n`. */
  predicate LastOf(log: Log, n: nat, i: nat, t: Txn)
    requires n <= |log|
  {
    i < n && log[i].txn == t && forall j | i < j < n :: log[j].txn != t
  }

  /** The table of unended transactions: those whose last record neither commits nor aborts, each with that record. */
  lemma {:induction false} UnendedTable(log: Log, n: nat, t: Txn)
    requires n <= |log|
    ensures t in Unended(log, n)
      <==> exists i :: 0 <= i < n && LastOf(log, n, i, t) && !log[i].body.Commit? && !log[i].body.Abort?
    ensures t in Unended(log, n) ==> 0 <= Unended(log, n)[t] < n && LastOf(log, n, Unended(log, n)[t], t)
  {
    if n > 0 {
      UnendedTable(log, n - 1, t);
      if log[n - 1].txn == t {
        assert LastOf(log, n, n - 1, t);
      } else {
        forall i | 0 <= i < n - 1 ensures LastOf(log, n, i, t) <==> LastOf(log, n - 1, i, t) {
        }
      }
    }
  }

  /** One redone record, key by key, whatever the database: see the missing key of a `Delete` and the taken new key of
      an `Update`. */
  lemma RedoByKey(log: Log, i: nat, s: Database, k: Key)
    requires Chained(log) && i < |log|
    ensures var r, body := RedoRecord(log, i, s), log[i].body;
      && (r.None? <==> body.Invalid? || (body.Insert? && body.insKey in s))
      && (r.Some? && !Writes(body, k) && !body.Abort? ==> SameAt(r.value, s, k))
      && (r.Some? && body.Insert? && k == body.insKey ==> k in r.value && r.value[k] == body.insVal)
      && (body.Delete? && k == body.delKey ==>
            var found := if k in s then s[k] else 0;
            if found == body.delVal then k !in r.value else k in r.value && r.value[k] == found)
      && (body.Update? && k == body.oldKey && k != body.newKey ==> k !in r.value)
      && (body.Update? && k == body.newKey ==>
            k in r.value && r.value[k] == if k != body.oldKey && k in s then s[k] else body.newVal)
  {
  }

  /** One undone record, key by key, whatever the database. */
  lemma UndoByKey(s: Database, body: Body, k: Key)
    ensures var d := UndoBody(s, body);
      && (!Writes(body, k) ==> SameAt(d, s, k))
      && (body.Insert? && k == body.insKey ==> k !in d)
      && (body.Delete? && k == body.delKey ==> k in d && d[k] == if k in s then s[k] else body.delVal)
      && (body.Update? && k == body.newKey && k != body.oldKey ==> k !in d)
      && (body.Update? && k == body.oldKey ==>
            k in d && d[k] == if k != body.newKey && k in s then s[k] else body.oldVal)
  {
  }
}

/** Undoing is local to the keys of a record, and the rollback of a transaction to the keys it wrote. */
module RecoveryProof {
  import opened Basics
  import opened LogRecords
  import opened LastWriters

  /** The databases agree on the keys in `ks`. */
  ghost predicate Agree(s: Database, d: Database, ks: set<Key>) {
    forall k | k in ks :: SameAt(s, d, k)
  }

  ghost predicate AgreeOutside(s: Database, d: Database, ks: set<Key>) {
    forall k | k !in ks :: SameAt(s, d, k)
  }

  lemma RedoIsApply(log: Log, i: nat, s: Database)
    requires Chained(log) && i < |log| && Applicable(s, log[i].body) && !log[i].body.Abort?
    ensures RedoRecord(log, i, s) == Some(Apply(s, log[i].body))
  {
  }

  lemma UndoInverts(s: Database, body: Body)
    requires Applicable(s, body)
    ensures UndoBody(Apply(s, body), body) == s
  {
  }

  lemma UndoLocal(s: Database, d: Database, body: Body, ks: set<Key>)
    requires Keys(body) <= ks && Agree(s, d, ks)
    ensures Agree(UndoBody(s, body), UndoBody(d, body), ks)
    ensures AgreeOutside(UndoBody(s, body), s, Keys(body))
  {
  }

  lemma ApplyLocal(s: Database, d: Database, body: Body, ks: set<Key>)
    requires Keys(body) <= ks && Agree(s, d, ks)
    ensures Agree(Apply(s, body), Apply(d, body), ks)
    ensures AgreeOutside(Apply(s, body), s, Keys(body))
  {
  }

  /** The rollback of `t` seen as a pass over the first `n` records, newest first. */
  ghost function UndoAll(log: Log, n: nat, t: Txn, s: Database): Database
    requires n <= |log|
  {
    if n == 0 then s
    else if log[n - 1].txn == t then UndoAll(log, n - 1, t, UndoBody(s, log[n - 1].body))
    else UndoAll(log, n - 1, t, s)
  }

  lemma {:induction false} NothingDone(log: Log, n: nat, t: Txn, s: Database)
    requires n <= |log| && forall j | 0 <= j < n :: log[j].txn != t
    ensures UndoAll(log, n, t, s) == s && Touched(log, n, t) == {} && t !in Unended(log, n)
  {
    if n > 0 {
      NothingDone(log, n - 1, t, s);
    }
  }

  /** The chain of `prev_lsn` from a transaction's last record visits exactly its records. */
  lemma {:induction false} ChainIsPass(init: Database, log: Log, n: nat, t: Txn, s: Database)
    requires StrictHistory(init, log) && n <= |log| && t in Unended(log, n)
    ensures 0 <= Unended(log, n)[t] < n
    ensures UndoChain(log, Unended(log, n)[t], s) == UndoAll(log, n, t, s)
  {
    var r := log[n - 1];
    assert RecordOk(init, log, n - 1);
    if r.txn != t {
      ChainIsPass(init, log, n - 1, t, s);
    } else if r.body.Begin? {
      NothingDone(log, n - 1, t, s);
    } else {
      ChainIsPass(init, log, n - 1, t, UndoBody(s, r.body));
    }
  }

  // ----- what holds after every record of a strict history

  lemma LiveDefined(init: Database, log: Log, n: nat)
    requires StrictHistory(init, log) && n <= |log|
    ensures Live(init, log, n).Some?
  {
    if n > 0 {
      assert RecordOk(init, log, n - 1);
    }
  }

  ghost function LiveAt(init: Database, log: Log, n: nat): Database
    requires StrictHistory(init, log) && n <= |log|
  {
    LiveDefined(init, log, n);
    Live(init, log, n).value
  }

  lemma {:induction false} NoWritesUnknown(log: Log, n: nat, t: Txn)
    requires n <= |log| && forall j | 0 <= j < n :: log[j].txn != t
    ensures Touched(log, n, t) == {}
  {
    if n > 0 {
      NoWritesUnknown(log, n - 1, t);
    }
  }

  /** Unended transactions never wrote the same key. */
  lemma {:induction false} OwnersApart(init: Database, log: Log, n: nat, t: Txn, u: Txn)
    requires StrictHistory(init, log) && n <= |log| && t in Unended(log, n) && u in Unended(log, n) && t != u
    ensures Touched(log, n, t) !! Touched(log, n, u)
  {
    var r := log[n - 1];
    assert RecordOk(init, log, n - 1);
    if r.body.Begin? && r.txn in {t, u} {
      NoWritesUnknown(log, n - 1, r.txn);
    } else {
      OwnersApart(init, log, n - 1, t, u);
    }
  }

  /** `k` was written by a transaction that has not ended and never commits. */
  ghost predicate Owned(log: Log, n: nat, k: Key)
    requires n <= |log|
  {
    exists t :: t in Unended(log, n) && !Commits(log, t) && k in Touched(log, n, t)
  }

  /** An ended transaction stays ended, so an aborting one never commits. */
  lemma {:induction false} EndedIsOut(init: Database, log: Log, i: nat, n: nat, t: Txn)
    requires StrictHistory(init, log) && i < n <= |log|
    requires log[i].txn == t && (log[i].body.Commit? || log[i].body.Abort?)
    ensures t !in Unended(log, n)
    ensures forall j | i < j < n :: log[j].txn != t
  {
    if i + 1 < n {
      EndedIsOut(init, log, i, n - 1, t);
      assert RecordOk(init, log, n - 1);
    }
  }

  lemma AbortedNeverCommits(init: Database, log: Log, i: nat)
    requires StrictHistory(init, log) && i < |log| && log[i].body.Abort?
    ensures !Commits(log, log[i].txn)
  {
    if Commits(log, log[i].txn) {
      var j :| 0 <= j < |log| && log[j].txn == log[i].txn && log[j].body.Commit?;
      if i < j {
        EndedIsOut(init, log, i, j + 1, log[i].txn);
      } else {
        EndedIsOut(init, log, j, i + 1, log[i].txn);
      }
    }
  }

  lemma StillUnendedNeverCommits(init: Database, log: Log, t: Txn)
    requires StrictHistory(init, log) && t in Unended(log, |log|)
    ensures !Commits(log, t)
  {
    if Commits(log, t) {
      var j :| 0 <= j < |log| && log[j].txn == t && log[j].body.Commit?;
      EndedIsOut(init, log, j, |log|, t);
    }
  }

  /** Off the keys owned by transactions that will not commit, the database is what the committed ones made it. */
  ghost predicate Mirrors(init: Database, log: Log, n: nat)
    requires StrictHistory(init, log) && n <= |log|
  {
    forall k :: !Owned(log, n, k) ==> SameAt(LiveAt(init, log, n), CommittedOnly(init, log, n), k)
  }

  lemma OwnedBefore(init: Database, log: Log, n: nat, k: Key)
    requires StrictHistory(init, log) && 0 < n <= |log| && Owned(log, n - 1, k) && !Owned(log, n, k)
    ensures log[n - 1].body.Abort? && k in Touched(log, n - 1, log[n - 1].txn)
  {
    var u :| u in Unended(log, n - 1) && !Commits(log, u) && k in Touched(log, n - 1, u);
    var r := log[n - 1];
    assert r.body.Commit? ==> Commits(log, r.txn);
    assert u !in Unended(log, n);
  }

  lemma KeysFree(init: Database, log: Log, n: nat, k: Key)
    requires StrictHistory(init, log) && 0 < n <= |log| && k in Keys(log[n - 1].body)
    requires Commits(log, log[n - 1].txn) || k !in Touched(log, n - 1, log[n - 1].txn)
    ensures !Owned(log, n - 1, k)
  {
    assert RecordOk(init, log, n - 1);
  }

  lemma {:induction false} LiveMirrorsCommitted(init: Database, log: Log, n: nat)
    requires StrictHistory(init, log) && n <= |log|
    ensures Mirrors(init, log, n)
    decreases n, 1
  {
    if n > 0 {
      LiveMirrorsCommitted(init, log, n - 1);
      var r := log[n - 1];
      var s, c := LiveAt(init, log, n - 1), CommittedOnly(init, log, n - 1);
      assert RecordOk(init, log, n - 1);
      forall k | !Owned(log, n, k) ensures SameAt(LiveAt(init, log, n), CommittedOnly(init, log, n), k) {
        if r.body.Abort? {
          AbortMirrors(init, log, n, k);
        } else {
          WriteMirrors(init, log, n, k);
        }
      }
    }
  }

  lemma WriteMirrors(init: Database, log: Log, n: nat, k: Key)
    requires StrictHistory(init, log) && 0 < n <= |log| && !log[n - 1].body.Abort?
    requires Mirrors(init, log, n - 1) && !Owned(log, n, k)
    ensures SameAt(LiveAt(init, log, n), CommittedOnly(init, log, n), k)
  {
    var r := log[n - 1];
    var s, c := LiveAt(init, log, n - 1), CommittedOnly(init, log, n - 1);
    assert RecordOk(init, log, n - 1);
    RedoIsApply(log, n - 1, s);
    if k in Keys(r.body) {
      assert Commits(log, r.txn);
      forall j | j in Keys(r.body) ensures SameAt(s, c, j) {
        KeysFree(init, log, n, j);
      }
      ApplyLocal(s, c, r.body, Keys(r.body));
    } else {
      if Owned(log, n - 1, k) {
        OwnedBefore(init, log, n, k);
      }
      ApplyLocal(s, s, r.body, Keys(r.body));
      ApplyLocal(c, c, r.body, Keys(r.body));
    }
  }

  lemma AbortMirrors(init: Database, log: Log, n: nat, k: Key)
    requires StrictHistory(init, log) && 0 < n <= |log| && log[n - 1].body.Abort?
    requires Mirrors(init, log, n - 1) && !Owned(log, n, k)
    ensures SameAt(LiveAt(init, log, n), CommittedOnly(init, log, n), k)
    decreases n, 0
  {
    var t := log[n - 1].txn;
    var s := LiveAt(init, log, n - 1);
    assert RecordOk(init, log, n - 1);
    AbortedNeverCommits(init, log, n - 1);
    ChainIsPass(init, log, n - 1, t, s);
    Rollback(init, log, n - 1, t, s);
    if k !in Touched(log, n - 1, t) && Owned(log, n - 1, k) {
      OwnedBefore(init, log, n, k);
    }
  }

  /** What another transaction does leaves the keys of `t` alone. */
  lemma OthersStayOff(init: Database, log: Log, n: nat, t: Txn)
    requires StrictHistory(init, log) && 0 < n <= |log| && t in Unended(log, n - 1) && log[n - 1].txn != t
    ensures Agree(LiveAt(init, log, n), LiveAt(init, log, n - 1), Touched(log, n - 1, t))
    ensures Agree(CommittedOnly(init, log, n), CommittedOnly(init, log, n - 1), Touched(log, n - 1, t))
    decreases n, 0
  {
    var r := log[n - 1];
    var s, c := LiveAt(init, log, n - 1), CommittedOnly(init, log, n - 1);
    assert RecordOk(init, log, n - 1);
    ApplyLocal(c, c, r.body, Keys(r.body));
    if r.body.Abort? {
      AbortedNeverCommits(init, log, n - 1);
      ChainIsPass(init, log, n - 1, r.txn, s);
      Rollback(init, log, n - 1, r.txn, s);
      OwnersApart(init, log, n - 1, t, r.txn);
    } else {
      RedoIsApply(log, n - 1, s);
      ApplyLocal(s, s, r.body, Keys(r.body));
    }
  }

  /** Undoing a transaction that will not commit gives its keys the values the committed ones gave them, and no other
      key changes. */
  lemma {:induction false} Rollback(init: Database, log: Log, n: nat, t: Txn, d: Database)
    requires StrictHistory(init, log) && n <= |log| && t in Unended(log, n) && !Commits(log, t)
    requires Agree(d, LiveAt(init, log, n), Touched(log, n, t))
    ensures Agree(UndoAll(log, n, t, d), CommittedOnly(init, log, n), Touched(log, n, t))
    ensures AgreeOutside(UndoAll(log, n, t, d), d, Touched(log, n, t))
    decreases n, 2
  {
    var r := log[n - 1];
    assert RecordOk(init, log, n - 1);
    if r.txn != t {
      OthersStayOff(init, log, n, t);
      Rollback(init, log, n - 1, t, d);
    } else if r.body.Begin? {
      NothingDone(log, n - 1, t, d);
    } else {
      RollbackOwn(init, log, n, t, d);
    }
  }

  lemma RollbackOwn(init: Database, log: Log, n: nat, t: Txn, d: Database)
    requires StrictHistory(init, log) && 0 < n <= |log| && t in Unended(log, n) && !Commits(log, t)
    requires log[n - 1].txn == t && !log[n - 1].body.Begin?
    requires Agree(d, LiveAt(init, log, n), Touched(log, n, t))
    ensures Agree(UndoAll(log, n, t, d), CommittedOnly(init, log, n), Touched(log, n, t))
    ensures AgreeOutside(UndoAll(log, n, t, d), d, Touched(log, n, t))
    decreases n, 1
  {
    var r := log[n - 1];
    var s, c := LiveAt(init, log, n - 1), CommittedOnly(init, log, n - 1);
    assert RecordOk(init, log, n - 1);
    RedoIsApply(log, n - 1, s);
    UndoInverts(s, r.body);
    UndoLocal(d, LiveAt(init, log, n), r.body, Touched(log, n, t));
    var d' := UndoBody(d, r.body);
    Rollback(init, log, n - 1, t, d');
    LiveMirrorsCommitted(init, log, n - 1);
    forall k | k in Touched(log, n, t) && k !in Touched(log, n - 1, t) ensures SameAt(s, c, k) {
      KeysFree(init, log, n, k);
    }
  }
}

/** Which records a strict history can go on with. */
module StrictHistories {
  import opened Basics
  import opened LogRecords
  import opened LastWriters
  import opened RecoveryProof

  lemma {:induction false} UnendedPrefix(log: Log, more: Log, n: nat)
    requires n <= |log|
    ensures Unended(log + more, n) == Unended(log, n)
  {
    if n > 0 {
      UnendedPrefix(log, more, n - 1);
      assert (log + more)[n - 1] == log[n - 1];
    }
  }

  lemma {:induction false} TouchedPrefix(log: Log, more: Log, n: nat, t: Txn)
    requires n <= |log|
    ensures Touched(log + more, n, t) == Touched(log, n, t)
  {
    if n > 0 {
      TouchedPrefix(log, more, n - 1, t);
    }
  }

  lemma {:induction false} UndoChainPrefix(log: Log, more: Log, l: nat, s: Database)
    requires Chained(log) && Chained(log + more) && l < |log|
    ensures UndoChain(log + more, l, s) == UndoChain(log, l, s)
    decreases l
  {
    if !log[l].body.Begin? {
      UndoChainPrefix(log, more, log[l].prev, UndoBody(s, log[l].body));
    }
  }

  lemma {:induction false} LivePrefix(init: Database, log: Log, more: Log, n: nat)
    requires Chained(log) && Chained(log + more) && n <= |log|
    ensures Live(init, log + more, n) == Live(init, log, n)
  {
    if n > 0 {
      LivePrefix(init, log, more, n - 1);
      if log[n - 1].body.Abort? && Live(init, log, n - 1).Some? {
        UndoChainPrefix(log, more, log[n - 1].prev, Live(init, log, n - 1).value);
      }
    }
  }

  ghost predicate WritesIn(log: Log, n: nat, t: Txn, k: Key)
    requires n <= |log|
  {
    exists j :: 0 <= j < n && log[j].txn == t && Writes(log[j].body, k)
  }

  lemma {:induction false} TouchedIsWritten(log: Log, n: nat, t: Txn, k: Key)
    requires n <= |log|
    ensures k in Touched(log, n, t) <==> WritesIn(log, n, t, k)
  {
    if n > 0 {
      TouchedIsWritten(log, n - 1, t, k);
    }
  }

  ghost predicate Ended(log: Log, t: Txn) {
    exists e :: 0 <= e < |log| && log[e].txn == t && (log[e].body.Commit? || log[e].body.Abort?)
  }

  /** `t` began in the log and did not end in it, and its last record is number `last`. */
  ghost predicate UnderWay(log: Log, t: Txn, last: int) {
    0 <= last < |log| && LastOf(log, |log|, last, t) && !Ended(log, t)
  }

  lemma UnendedIsUnderWay(init: Database, log: Log, t: Txn, last: int)
    requires StrictHistory(init, log)
    ensures t in Unended(log, |log|) && Unended(log, |log|)[t] == last <==> UnderWay(log, t, last)
    ensures t in Unended(log, |log|) ==> !Ended(log, t)
  {
    UnendedTable(log, |log|, t);
    if e :| 0 <= e < |log| && log[e].txn == t && (log[e].body.Commit? || log[e].body.Abort?) {
      EndedIsOut(init, log, e, |log|, t);
    }
  }

  lemma RecordPrefix(init: Database, log: Log, r: LogRec, i: nat)
    requires Chained(log) && Chained(log + [r]) && i < |log|
    ensures RecordOk(init, log + [r], i) <==> RecordOk(init, log, i)
  {
    hide Live, Unended, Touched, Applicable, Keys;
    var more := log + [r];
    assert more[i] == log[i];
    UnendedPrefix(log, [r], i);
    LivePrefix(init, log, [r], i);
    forall t ensures Touched(more, i, t) == Touched(log, i, t) {
      TouchedPrefix(log, [r], i, t);
    }
    assert forall j | 0 <= j < i :: more[j] == log[j];
  }

  lemma StrictPrefix(init: Database, log: Log, r: LogRec)
    requires StrictHistory(init, log + [r])
    ensures StrictHistory(init, log)
  {
    hide RecordOk;
    assert Chained(log) by {
      assert forall i | 0 <= i < |log| :: (log + [r])[i] == log[i];
    }
    forall i | 0 <= i < |log| ensures RecordOk(init, log, i) {
      RecordPrefix(init, log, r, i);
    }
  }

  /** No other transaction under way has written a key of the record. */
  ghost predicate Unshared(log: Log, r: LogRec) {
    forall t, k | WritesIn(log, |log|, t, k) && t != r.txn && Writes(r.body, k) :: Ended(log, t)
  }

  ghost predicate FreeOf(log: Log, r: LogRec, t: Txn) {
    Keys(r.body) !! Touched(log, |log|, t)
  }

  lemma FreeIff(init: Database, log: Log, r: LogRec)
    requires StrictHistory(init, log)
    ensures (forall t | t in Unended(log, |log|) && t != r.txn :: FreeOf(log, r, t)) <==> Unshared(log, r)
  {
    hide StrictHistory, Ended, WritesIn, FreeOf;
    if Unshared(log, r) {
      forall t | t in Unended(log, |log|) && t != r.txn ensures FreeOf(log, r, t) {
        UnendedIsUnderWay(init, log, t, Unended(log, |log|)[t]);
        FreeByKey(log, r, t);
      }
    }
    if forall t | t in Unended(log, |log|) && t != r.txn :: FreeOf(log, r, t) {
      forall t, k | WritesIn(log, |log|, t, k) && t != r.txn && Writes(r.body, k) ensures Ended(log, t) {
        WriterUnended(init, log, t, k);
        FreeByKey(log, r, t);
      }
    }
  }

  lemma FreeByKey(log: Log, r: LogRec, t: Txn)
    ensures FreeOf(log, r, t) <==> forall k :: !(WritesIn(log, |log|, t, k) && Writes(r.body, k))
  {
    hide Touched, Keys, Writes, WritesIn;
    forall k ensures k in Touched(log, |log|, t) <==> WritesIn(log, |log|, t, k) {
      TouchedIsWritten(log, |log|, t, k);
    }
    forall k ensures k in Keys(r.body) <==> Writes(r.body, k) {
      KeysAreWritten(r.body, k);
    }
  }

  lemma KeysAreWritten(body: Body, k: Key)
    ensures k in Keys(body) <==> Writes(body, k)
  {
  }

  lemma WriterUnended(init: Database, log: Log, t: Txn, k: Key)
    requires StrictHistory(init, log) && WritesIn(log, |log|, t, k)
    ensures t in Unended(log, |log|) <==> !Ended(log, t)
  {
    var j :| 0 <= j < |log| && log[j].txn == t && Writes(log[j].body, k);
    var last := LastRecord(log, |log|, j, t);
    UnendedIsUnderWay(init, log, t, last);
  }

  lemma {:induction false} LastRecord(log: Log, n: nat, j: nat, t: Txn) returns (last: nat)
    requires j < n <= |log| && log[j].txn == t
    ensures last < n && LastOf(log, n, last, t)
  {
    if log[n - 1].txn == t {
      last := n - 1;
    } else {
      last := LastRecord(log, n - 1, j, t);
    }
  }

  lemma LastRecordOk(init: Database, log: Log, r: LogRec)
    requires StrictHistory(init, log) && Chained(log + [r])
    ensures RecordOk(init, log + [r], |log|) <==>
      && (if r.body.Begin? then
            forall j | 0 <= j < |log| :: log[j].txn != r.txn
          else
            UnderWay(log, r.txn, r.prev))
      && Applicable(LiveAt(init, log, |log|), r.body)
      && (forall t | t in Unended(log, |log|) && t != r.txn :: FreeOf(log, r, t))
  {
    var n, more := |log|, log + [r];
    LiveDefined(init, log, n);
    assert Chained(log);
    hide StrictHistory, Live, Unended, Touched, Applicable, Keys, UnderWay;
    assert more[n] == r;
    UnendedPrefix(log, [r], n);
    LivePrefix(init, log, [r], n);
    UnendedIsUnderWay(init, log, r.txn, r.prev);
    forall t ensures Touched(more, n, t) == Touched(log, n, t) {
      TouchedPrefix(log, [r], n, t);
    }
    assert forall j | 0 <= j < n :: more[j] == log[j];
    assert (forall j | 0 <= j < n :: log[j].txn != r.txn) <==> forall j | 0 <= j < n :: more[j].txn != r.txn by {
      forall j | 0 <= j < n ensures log[j].txn == more[j].txn {
      }
    }
  }

  /**
   A strict history goes on with a record exactly when the record begins a new transaction or names the last record of
   its own, unended one, tells the truth about the database, and writes no key that another unended transaction wrote.
   */
  lemma StrictExtends(init: Database, log: Log, r: LogRec)
    requires StrictHistory(init, log)
    ensures StrictHistory(init, log + [r]) <==>
      && (r.body.Begin? ==> forall j | 0 <= j < |log| :: log[j].txn != r.txn)
      && (!r.body.Begin? ==> UnderWay(log, r.txn, r.prev))
      && !r.body.Invalid?
      && var s := LiveAt(init, log, |log|);
      && (r.body.Insert? ==> r.body.insKey !in s)
      && (r.body.Delete? ==> r.body.delKey in s && s[r.body.delKey] == r.body.delVal)
      && (r.body.Update? ==> r.body.oldKey in s && s[r.body.oldKey] == r.body.oldVal)
      && (r.body.Update? ==> r.body.newKey == r.body.oldKey || r.body.newKey !in s)
      && Unshared(log, r)
  {
    hide RecordOk, Unshared, FreeOf, LastOf, Ended, WritesIn, Writes;
    var more := log + [r];
    FreeIff(init, log, r);
    if Chained(more) {
      LastRecordOk(init, log, r);
      forall i | 0 <= i < |log| ensures RecordOk(init, more, i) {
        RecordPrefix(init, log, r, i);
      }
    } else {
      assert more[|log|] == r;
    }
  }
}
