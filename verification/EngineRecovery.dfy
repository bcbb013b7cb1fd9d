/**
 * What the storage engine recovers from a log and its snapshots
 * (packages/storage/src/engine/storage-engine.ts, `recover`), and which directories it can
 * recover after a crash.
 */
module EngineRecovery {
  import opened Bytes
  import opened Text
  import opened WalFormat
  import opened WalRecovery
  import opened LogSteps
  import opened Leftovers
  import opened Log = WriteAheadLog
  import opened Operations
  import opened Replaying

  /** A snapshot file: the state after the record with this LSN. */
  datatype Snapshot = Snapshot(lsn: nat, state: State)

  /** The state after the first `n` records. */
  ghost function StateAt(history: seq<Record>, n: nat): Option<State>
    requires n <= |history|
  {
    Replay(map[], history[..n])
  }

  /** `state` is one index definition ahead of `before`, and the next record is that definition. */
  ghost predicate Early(state: State, before: State, next: Record) {
    && next.kind == TRANSACTION
    && var ops := DecodeOperations(next.payload);
       ops.Some? && |ops.value| == 1 && ops.value[0].CreateIndex? && Apply(before, ops.value[0]) == Some(state)
  }

  /**
   * A snapshot holds the state at its LSN, except that one taken while an index is being
   * created may already hold that index.
   */
  ghost predicate Faithful(s: Snapshot, history: seq<Record>) {
    && s.lsn <= |history|
    && StateAt(history, s.lsn).Some?
    && var exact := StateAt(history, s.lsn).value;
       s.state == exact || (s.lsn < |history| && Early(s.state, exact, history[s.lsn]))
  }

  /** The snapshot runs ahead of a log that ends at its LSN. */
  ghost predicate Ahead(s: Snapshot, history: seq<Record>)
    requires Faithful(s, history)
  {
    s.state != StateAt(history, s.lsn).value
  }

  lemma EarlyApplies(state: State, before: State, next: Record)
    requires Early(state, before, next)
    ensures ApplyRecord(before, next) == Some(state) == ApplyRecord(state, next)
  {
    hide Apply;
    var ops := DecodeOperations(next.payload).value;
    assert ops[1..] == [];
    assert ApplyAll(state, ops[1..]) == Some(state);
    assert Apply(before, ops[0]) == Some(state);
    CreateIndexTwice(before, ops[0]);
  }

  lemma StateAtSplits(history: seq<Record>, a: nat, b: nat)
    requires a <= b <= |history|
    ensures StateAt(history, b)
         == match StateAt(history, a) case None => None case Some(s) => Replay(s, history[a..b])
  {
    assert history[..b] == history[..a] + history[a..b];
    ReplayAppend(map[], history[..a], history[a..b]);
  }

  /** Replaying the log from a snapshot gives what replaying it from the beginning gives. */
  lemma FaithfulReplays(s: Snapshot, history: seq<Record>, m: nat)
    requires Faithful(s, history) && s.lsn <= m <= |history|
    ensures m == s.lsn && Ahead(s, history) ==> m < |history| && Replay(s.state, history[s.lsn..m]) == StateAt(history, m + 1)
    ensures m > s.lsn || !Ahead(s, history) ==> Replay(s.state, history[s.lsn..m]) == StateAt(history, m)
  {
    hide ApplyRecord, Apply, Early;
    var exact := StateAt(history, s.lsn).value;
    StateAtSplits(history, s.lsn, m);
    if s.state != exact {
      var r := history[s.lsn];
      EarlyApplies(s.state, exact, r);
      if m == s.lsn {
        StateAtSplits(history, m, m + 1);
        assert history[m..m + 1] == [r];
        ReplayOne(exact, r);
        assert history[m..m] == [];
      } else {
        assert history[s.lsn..m] == [r] + history[s.lsn + 1..m];
        ReplayAppend(exact, [r], history[s.lsn + 1..m]);
        ReplayAppend(s.state, [r], history[s.lsn + 1..m]);
        ReplayOne(exact, r);
        ReplayOne(s.state, r);
      }
    }
  }

  lemma FaithfulExtends(s: Snapshot, history: seq<Record>, longer: seq<Record>)
    requires Faithful(s, history) && history <= longer
    ensures Faithful(s, longer)
  {
    hide Early, Replay;
    assert longer[..s.lsn] == history[..s.lsn];
  }

  lemma FaithfulShrinks(s: Snapshot, history: seq<Record>, m: nat)
    requires Faithful(s, history) && s.lsn <= m <= |history|
    requires s.lsn < m || !Ahead(s, history)
    ensures Faithful(s, history[..m])
  {
    hide Early, Replay;
    assert history[..m][..s.lsn] == history[..s.lsn];
  }

  // ---------------------------------------------------------------- recovery

  /** A snapshot file as recovery finds it: None when it cannot be read. */
  datatype Candidate = Candidate(lsn: nat, state: Option<State>)

  const EMPTY := Snapshot(0, map[])

  /** The newest readable snapshot, or the empty state. */
  function Base(candidates: seq<Candidate>): (s: Snapshot)
    ensures s == EMPTY || exists i | 0 <= i < |candidates| :: candidates[i] == Candidate(s.lsn, Some(s.state))
  {
    if candidates == [] then EMPTY
    else if candidates[0].state.Some? then
      assert candidates[0] == Candidate(candidates[0].lsn, Some(candidates[0].state.value));
      Snapshot(candidates[0].lsn, candidates[0].state.value)
    else Base(candidates[1..])
  }

  /** Recovery from a base and a log holding `rs` from LSN `first` on. */
  function RecoverFrom(base: Snapshot, first: nat, rs: seq<Record>): Option<State> {
    if first > base.lsn + 1 || first + |rs| - 1 < base.lsn then None
    else Replay(base.state, rs[base.lsn + 1 - first..])
  }

  // ---------------------------------------------------------------- crash safety

  /** A directory at one step of a run, with every record ever appended and the last acknowledged LSN. */
  datatype EnginePoint = EnginePoint(log: CrashPoint, snapshots: seq<Snapshot>, history: seq<Record>, acked: int)

  ghost predicate Ordered(snapshots: seq<Snapshot>) {
    forall i, j | 0 <= i < j < |snapshots| :: snapshots[i].lsn > snapshots[j].lsn
  }

  /** The snapshots reach the log on both sides, and enough are kept to lose all but one. */
  ghost predicate Covered(snapshots: seq<Snapshot>, history: seq<Record>, start: nat, durable: int,
                          acked: int, kept: nat) {
    && Ordered(snapshots)
    && Run(history, 1)
    && Replay(map[], history).Some?
    && 1 <= start <= |history| + 1
    && acked <= durable
    && (|snapshots| < kept ==> start == 1)
    && forall i | 0 <= i < |snapshots| ::
      Faithful(snapshots[i], history) && start <= snapshots[i].lsn + 1 && snapshots[i].lsn <= durable
  }

  ghost predicate Safe(p: EnginePoint, kept: nat) {
    && Sound(p.log) && Settled(p.log) && Strewn(p.log, true)
    && Covered(p.snapshots, p.history, StartLsn(p.log), DurableLsn(p.log), p.acked, kept)
    && Flat(p.log.parts) <= p.history[StartLsn(p.log) - 1..]
  }

  /** The snapshot files after some of them became unreadable. */
  ghost predicate DamagedCopy(snapshots: seq<Snapshot>, candidates: seq<Candidate>) {
    && |candidates| == |snapshots|
    && forall i | 0 <= i < |snapshots| ::
      candidates[i].lsn == snapshots[i].lsn && (candidates[i].state.Some? ==> candidates[i].state.value == snapshots[i].state)
  }

  ghost function Lost(candidates: seq<Candidate>): nat {
    if candidates == [] then 0 else (if candidates[0].state.None? then 1 else 0) + Lost(candidates[1..])
  }

  lemma {:induction false} SomeReadable(snapshots: seq<Snapshot>, candidates: seq<Candidate>)
    requires DamagedCopy(snapshots, candidates)
    ensures Base(candidates) == EMPTY || Base(candidates) in snapshots
    ensures Lost(candidates) < |candidates| ==> Base(candidates) in snapshots
  {
    if candidates != [] {
      if candidates[0].state.Some? {
        assert Base(candidates) == snapshots[0];
      } else {
        SomeReadable(snapshots[1..], candidates[1..]);
      }
    }
  }

  lemma EmptyIsFaithful(history: seq<Record>)
    ensures Faithful(EMPTY, history) && !Ahead(EMPTY, history)
  {
    assert history[..0] == [];
  }

  lemma StatesExist(history: seq<Record>, n: nat)
    requires Replay(map[], history).Some? && n <= |history|
    ensures StateAt(history, n).Some?
  {
    hide Replay;
    assert history[..|history|] == history;
    StateAtSplits(history, n, |history|);
  }

  /** How many records of the history a recovery restores: one more if its base ran ahead of the log. */
  ghost function Restored(base: Snapshot, history: seq<Record>, m: nat): nat
    requires Faithful(base, history)
  {
    if m == base.lsn && Ahead(base, history) then m + 1 else m
  }

  /** Any faithful base that the log reaches on both sides recovers the state of the whole log. */
  lemma RecoverFromAnyBase(base: Snapshot, history: seq<Record>, first: nat, m: nat)
    requires Faithful(base, history) && Replay(map[], history).Some?
    requires 1 <= first <= base.lsn + 1 && base.lsn <= m <= |history| && first <= m + 1
    ensures
      var n := Restored(base, history, m);
      && m <= n <= |history| && StateAt(history, n).Some?
      && RecoverFrom(base, first, history[first - 1..m]) == StateAt(history, n)
  {
    hide Replay, Early;
    var rs := history[first - 1..m];
    FaithfulReplays(base, history, m);
    SubSlice(history, first - 1, m, base.lsn + 1 - first, m - (first - 1));
    assert rs[base.lsn + 1 - first..] == history[base.lsn..m];
    StatesExist(history, Restored(base, history, m));
  }

  /**
   * A log holding `rs` from LSN `first` on is a prefix of the history, and recovering it from
   * `base` yields exactly the state of the first `n` records, which include every acknowledged one.
   */
  ghost predicate RestoresPrefix(history: seq<Record>, acked: int, first: nat, rs: seq<Record>, base: Snapshot) {
    var m := first + |rs| - 1;
    && 1 <= first && m <= |history| && rs == history[first - 1..m]
    && Faithful(base, history) && first <= base.lsn + 1 && base.lsn <= m
    && var n := Restored(base, history, m);
       && acked <= m <= n <= |history|
       && StateAt(history, n).Some?
       && RecoverFrom(base, first, rs) == StateAt(history, n)
  }

  /**
   * Crash refinement. From any safe point, after any power loss, and after losing any
   * snapshots that leave one of the retained ones readable, recovery accepts the directory
   * exactly if what the log has left behind in it is tolerated, always if that is nothing, and
   * then restores a prefix of the history that contains every acknowledged record.
   */
  lemma CrashRefinement(p: EnginePoint, kept: nat, after: seq<File>, candidates: seq<Candidate>)
    requires Safe(p, kept) && PowerLoss(Directory(p.log), after)
    requires DamagedCopy(p.snapshots, candidates) && Lost(candidates) < kept
    ensures Intact(after) <==> Tolerates(p.log, after)
    ensures Intact(after) ==>
      && AllUsable(Live(after))
      && StartLsn(p.log) == (if Live(after) == [] then 1 else Live(after)[0].name)
      && DurableLsn(p.log) <= StartLsn(p.log) + |Contents(Live(after))| - 1
      && RestoresPrefix(p.history, p.acked, StartLsn(p.log), Contents(Live(after)), Base(candidates))
  {
    hide Sound, Settled, Strewn, Flat, Replay, Faithful, PowerLoss, Intact, AllUsable, Live, DurableLsn, StartLsn, Contents, RecoverFrom,
         Tolerates, Merge;
    var left := CrashedDirectory(p.log, after);
    if Intact(after) {
      SomeReadable(p.snapshots, candidates);
      EmptyIsFaithful(p.history);
      var rs := Contents(Live(after));
      var first := StartLsn(p.log);
      var m := first + |rs| - 1;
      assert rs <= p.history[first - 1..];
      TakePrefix(rs, p.history, first - 1);
      RecoverFromAnyBase(Base(candidates), p.history, first, m);
    }
  }

  /** The same collections with the same documents in the same order. */
  ghost predicate SameDocuments(a: State, b: State) {
    a.Keys == b.Keys && forall ns | ns in a :: a[ns].documents == b[ns].documents
  }

  /**
   * Which snapshots were lost makes no difference: any two recoveries of one directory give
   * the same documents in the same order, and the same state unless the log ends exactly at
   * a base that already held an index whose record never reached the log.
   */
  lemma AnyBaseEquivalent(p: EnginePoint, kept: nat, after: seq<File>, a: seq<Candidate>, b: seq<Candidate>)
    requires Safe(p, kept) && PowerLoss(Directory(p.log), after)
    requires DamagedCopy(p.snapshots, a) && Lost(a) < kept
    requires DamagedCopy(p.snapshots, b) && Lost(b) < kept
    ensures Intact(after) <==> Tolerates(p.log, after)
    ensures Intact(after) ==>
      AllUsable(Live(after)) &&
      var rs := Contents(Live(after));
      var first := StartLsn(p.log);
      var last := first + |rs| - 1;
      var ra, rb := RecoverFrom(Base(a), first, rs), RecoverFrom(Base(b), first, rs);
      && ra.Some? && rb.Some? && SameDocuments(ra.value, rb.value)
      && (Base(a).lsn < last && Base(b).lsn < last ==> ra == rb)
  {
    hide Sound, Settled, Strewn, Flat, Replay, Faithful, PowerLoss, Intact, AllUsable, Live, DurableLsn, StartLsn, Contents, RecoverFrom,
         Base, DamagedCopy, Lost, Tolerates, Merge;
    CrashRefinement(p, kept, after, a);
    CrashRefinement(p, kept, after, b);
    if Intact(after) {
      var m := StartLsn(p.log) + |Contents(Live(after))| - 1;
      StatesExist(p.history, m);
      RestoredDocuments(Base(a), p.history, m);
      RestoredDocuments(Base(b), p.history, m);
    }
  }

  lemma EarlyKeepsDocuments(state: State, before: State, next: Record)
    requires Early(state, before, next)
    ensures SameDocuments(before, state)
  {}

  lemma RestoredDocuments(base: Snapshot, history: seq<Record>, m: nat)
    requires Faithful(base, history) && base.lsn <= m <= |history|
    requires StateAt(history, m).Some? && Restored(base, history, m) <= |history|
    ensures
      var s := StateAt(history, Restored(base, history, m));
      s.Some? && SameDocuments(StateAt(history, m).value, s.value)
  {
    hide Replay, Early, SameDocuments;
    SameDocumentsSelf(StateAt(history, m).value);
    if m == base.lsn && Ahead(base, history) {
      EarlyKeepsDocuments(base.state, StateAt(history, m).value, history[m]);
      FaithfulReplays(base, history, m);
      assert history[m..m] == [];
      EmptyReplay(base.state);
    }
  }

  lemma SameDocumentsSelf(s: State)
    ensures SameDocuments(s, s)
  {}

  lemma EmptyReplay(s: State)
    ensures Replay(s, []) == Some(s)
  {}

  /**
   * What a failed append after an early snapshot can lead to. A restart restores the index
   * from that snapshot, and dropping it then writes a record that replays from that snapshot
   * but, unless the index was there all along, not from an older base.
   */
  lemma StrandedIndex(s: State, op: Operation)
    requires op.CreateIndex? && Apply(s, op).Some?
    ensures
      var ahead := Apply(s, op).value;
      var drop := DropIndex(op.ns, op.index.name);
      && Apply(ahead, drop).Some?
      && (Apply(s, drop).Some? <==> ahead == s)
  {
    var c := s[op.ns];
    var ahead := Apply(s, op).value;
    if FindIndex(c.indexes, op.index.name) == |c.indexes| {
      assert ahead[op.ns].indexes == c.indexes + [op.index];
      assert ahead[op.ns].indexes[|c.indexes|] == op.index;
      assert |ahead[op.ns].indexes| != |c.indexes|;
    }
  }

  lemma TakePrefix<T>(a: seq<T>, s: seq<T>, k: nat)
    requires k <= |s| && a <= s[k..]
    ensures k + |a| <= |s| && a == s[k..k + |a|]
  {}
}
