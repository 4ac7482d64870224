/** `processQueue` of early-access-processor.js: one cycle of the driver.
    It takes at most three pending sign-ups in file order, runs the
    stages for each, marks the ones that complete `contacted`, records
    their solutions by sign-up id, and rewrites both stores. */
module Batch {
  import opened Classifier

  const BatchSize: nat := 3

  /** `status`: only the exact value "pending" is selected. `Other`
      stands for every status string but "pending" and "contacted", which
      are the two other constructors; its `text` is never one of those. */
  datatype Status = Pending | Contacted | Other(text: string)

  /** One entry of `db.inscriptions`. */
  datatype Inscription = Inscription(
    id: string, name: string, email: string, company: string, challenge: string, status: Status)

  /** One value of the solutions store. */
  datatype Solution = Solution(
    id: string, inscriptionId: string, analysis: Analysis, status: string, deliveredAt: string)

  /** What the stages do for one sign-up: throw somewhere (creating the
      automation file can fail), or complete, with the solution id
      `sol_<Date.now()>` and the delivery time read from the clock. */
  datatype Outcome = Threw | Completed(solutionId: string, deliveredAt: string)

  /** The sign-up store and the solutions store, as loaded and as saved. */
  datatype Stores = Stores(inscriptions: seq<Inscription>, solutions: map<string, Solution>)

  /*** Selection ***/

  /** Strictly increasing positions: file order, no repeats. */
  predicate Increasing(s: seq<nat>)
  {
    forall k, l :: 0 <= k < l < |s| ==> s[k] < s[l]
  }

  /** Positions of the pending sign-ups from `from` on, in file order. */
  function PendingFrom(db: seq<Inscription>, from: nat): (ps: seq<nat>)
    requires from <= |db|
    ensures forall k :: 0 <= k < |ps| ==> from <= ps[k] < |db| && db[ps[k]].status == Pending
    ensures Increasing(ps)
    ensures forall j :: from <= j < |db| && db[j].status == Pending ==> j in ps
    decreases |db| - from
  {
    if from == |db| then []
    else if db[from].status == Pending then
      var rest := PendingFrom(db, from + 1);
      PrependIncreasing(from, rest);
      [from] + rest
    else PendingFrom(db, from + 1)
  }

  lemma PrependIncreasing(x: nat, s: seq<nat>)
    requires Increasing(s)
    requires forall k :: 0 <= k < |s| ==> x < s[k]
    ensures Increasing([x] + s)
  {
    var t := [x] + s;
    forall k, l | 0 <= k < l < |t| ensures t[k] < t[l] {
      assert t[l] == s[l - 1];
      if k > 0 {
        assert t[k] == s[k - 1];
      }
    }
  }

  /** `db.inscriptions.filter(i => i.status === 'pending').slice(0, 3)`, as
      positions: the first pending sign-ups, at most three; a pending
      sign-up is left out only when three earlier ones were taken. */
  function SelectBatch(db: seq<Inscription>): (sel: seq<nat>)
    ensures |sel| <= BatchSize
    ensures forall k :: 0 <= k < |sel| ==> sel[k] < |db| && db[sel[k]].status == Pending
    ensures Increasing(sel)
    ensures forall j :: 0 <= j < |db| && db[j].status == Pending && j !in sel ==>
              |sel| == BatchSize && sel[BatchSize - 1] < j
  {
    var all := PendingFrom(db, 0);
    if |all| <= BatchSize then all
    else
      FirstPending(db, BatchSize);
      all[..BatchSize]
  }

  /** The first `n` pending positions, when there are at least `n`: in
      order, pending, and before every pending position they leave out. */
  lemma FirstPending(db: seq<Inscription>, n: nat)
    requires 0 < n <= |PendingFrom(db, 0)|
    ensures var sel := PendingFrom(db, 0)[..n];
      && (forall k :: 0 <= k < |sel| ==> sel[k] < |db| && db[sel[k]].status == Pending)
      && Increasing(sel)
      && forall j :: 0 <= j < |db| && db[j].status == Pending && j !in sel ==> sel[n - 1] < j
  {
    var all := PendingFrom(db, 0);
    var sel := all[..n];
    assert forall k :: 0 <= k < n ==> sel[k] == all[k];
    forall j | 0 <= j < |db| && db[j].status == Pending && j !in sel
      ensures sel[n - 1] < j
    {
      assert j in all;
      assert forall i :: 0 <= i < n ==> all[i] != j;
      var k :| 0 <= k < |all| && all[k] == j;
      assert n - 1 < k;
    }
  }

  /*** The cycle ***/

  /** `solutions[inscription.id] = {…}` for a sign-up whose stages
      completed. */
  function MakeSolution(r: Inscription, o: Outcome): Solution
    requires o.Completed?
  {
    Solution(o.solutionId, r.id, AnalyzeChallenge(r.company, r.challenge), "delivered", o.deliveredAt)
  }

  predicate Distinct(sel: seq<nat>)
  {
    forall k, l :: 0 <= k < l < |sel| ==> sel[k] != sel[l]
  }

  /** The ids of the sign-ups among `sel` whose stages completed. */
  function CompletedIds(db: seq<Inscription>, sel: seq<nat>, outcome: nat -> Outcome): (ids: set<string>)
    requires forall k :: 0 <= k < |sel| ==> sel[k] < |db|
    ensures forall q :: 0 <= q < |sel| && outcome(sel[q]).Completed? ==> db[sel[q]].id in ids
    decreases |sel|
  {
    if |sel| == 0 then {}
    else
      var rest := CompletedIds(db, sel[1..], outcome);
      assert forall q :: 1 <= q < |sel| ==> sel[q] == sel[1..][q - 1];
      (if outcome(sel[0]).Completed? then {db[sel[0]].id} else {}) + rest
  }

  /** Every id in `CompletedIds` comes from a selected sign-up whose
      stages completed. */
  lemma {:induction false} CompletedIdsSound(db: seq<Inscription>, sel: seq<nat>, outcome: nat -> Outcome, key: string)
    requires forall k :: 0 <= k < |sel| ==> sel[k] < |db|
    requires key in CompletedIds(db, sel, outcome)
    ensures exists q :: 0 <= q < |sel| && outcome(sel[q]).Completed? && db[sel[q]].id == key
    decreases |sel|
  {
    if outcome(sel[0]).Completed? && db[sel[0]].id == key {
    } else {
      CompletedIdsSound(db, sel[1..], outcome, key);
      var q :| 0 <= q < |sel[1..]| && outcome(sel[1..][q]).Completed? && db[sel[1..][q]].id == key;
      assert sel[q + 1] == sel[1..][q];
    }
  }

  /** Position `p` of `sel` completed and no later completed sign-up of
      the batch has the same id, so its solution is the one that stays. */
  predicate LastWriter(db: seq<Inscription>, sel: seq<nat>, outcome: nat -> Outcome, p: nat)
    requires forall k :: 0 <= k < |sel| ==> sel[k] < |db|
    requires p < |sel|
  {
    && outcome(sel[p]).Completed?
    && forall q :: p < q < |sel| && outcome(sel[q]).Completed? ==> db[sel[q]].id != db[sel[p]].id
  }

  /** The `for … of pending` loop over the positions `sel`: the `try`
      isolates each sign-up, so one that throws changes nothing and the
      loop goes on. `db` is the loaded store the sign-ups are read from. */
  function RunBatch(db: seq<Inscription>, st: Stores, sel: seq<nat>, outcome: nat -> Outcome): (st': Stores)
    requires |st.inscriptions| == |db|
    requires forall k :: 0 <= k < |sel| ==> sel[k] < |db|
    requires Distinct(sel)
    ensures |st'.inscriptions| == |db|
    ensures forall i :: 0 <= i < |db| ==>
              st'.inscriptions[i]
              == if i in sel && outcome(i).Completed? then db[i].(status := Contacted) else st.inscriptions[i]
    decreases |sel|
  {
    if |sel| == 0 then st
    else
      var rest := sel[1..];
      assert forall q :: 0 <= q < |rest| ==> rest[q] == sel[q + 1];
      assert forall i :: i in sel <==> i == sel[0] || i in rest;
      RunBatch(db, RunOne(db, st, sel[0], outcome), rest, outcome)
  }

  /** The solutions store after the loop: the ids of the completed
      sign-ups are added and every other entry is left as loaded. */
  lemma {:induction false} RunBatchSolutions(db: seq<Inscription>, st: Stores, sel: seq<nat>, outcome: nat -> Outcome)
    requires |st.inscriptions| == |db|
    requires forall k :: 0 <= k < |sel| ==> sel[k] < |db|
    requires Distinct(sel)
    ensures RunBatch(db, st, sel, outcome).solutions.Keys == st.solutions.Keys + CompletedIds(db, sel, outcome)
    ensures forall key :: key in st.solutions && key !in CompletedIds(db, sel, outcome) ==>
              RunBatch(db, st, sel, outcome).solutions[key] == st.solutions[key]
    decreases |sel|
  {
    if |sel| > 0 {
      var rest := sel[1..];
      assert forall q :: 0 <= q < |rest| ==> rest[q] == sel[q + 1];
      var st1 := RunOne(db, st, sel[0], outcome);
      assert RunBatch(db, st, sel, outcome) == RunBatch(db, st1, rest, outcome);
      RunBatchSolutions(db, st1, rest, outcome);
    }
  }

  /** The body of the loop for the sign-up at position `i`. */
  function RunOne(db: seq<Inscription>, st: Stores, i: nat, outcome: nat -> Outcome): (st': Stores)
    requires |st.inscriptions| == |db| && i < |db|
    ensures |st'.inscriptions| == |db|
    ensures outcome(i).Threw? ==> st' == st
    ensures outcome(i).Completed? ==>
              && st'.inscriptions[i] == db[i].(status := Contacted)
              && (forall j :: 0 <= j < |db| && j != i ==> st'.inscriptions[j] == st.inscriptions[j])
              && st'.solutions.Keys == st.solutions.Keys + {db[i].id}
              && st'.solutions[db[i].id] == MakeSolution(db[i], outcome(i))
              && st'.solutions[db[i].id].inscriptionId == db[i].id
              && st'.solutions[db[i].id].status == "delivered"
              && (forall key :: key in st.solutions && key != db[i].id ==> st'.solutions[key] == st.solutions[key])
  {
    if outcome(i).Completed? then
      Stores(st.inscriptions[i := db[i].(status := Contacted)],
             st.solutions[db[i].id := MakeSolution(db[i], outcome(i))])
    else st
  }

  /** The solution stored under a sign-up's id is the one made by the last
      completed sign-up of the batch with that id. */
  lemma {:induction false} RunBatchLastWriter(db: seq<Inscription>, st: Stores, sel: seq<nat>, outcome: nat -> Outcome, p: nat)
    requires |st.inscriptions| == |db|
    requires forall k :: 0 <= k < |sel| ==> sel[k] < |db|
    requires Distinct(sel)
    requires p < |sel| && LastWriter(db, sel, outcome, p)
    ensures db[sel[p]].id in RunBatch(db, st, sel, outcome).solutions
    ensures RunBatch(db, st, sel, outcome).solutions[db[sel[p]].id] == MakeSolution(db[sel[p]], outcome(sel[p]))
    decreases |sel|
  {
    var rest := sel[1..];
    assert forall q :: 0 <= q < |rest| ==> rest[q] == sel[q + 1];
    var st1 := RunOne(db, st, sel[0], outcome);
    assert RunBatch(db, st, sel, outcome) == RunBatch(db, st1, rest, outcome);
    if p == 0 {
      SolutionSurvives(db, st1, rest, outcome, db[sel[0]].id);
    } else {
      assert LastWriter(db, rest, outcome, p - 1);
      RunBatchLastWriter(db, st1, rest, outcome, p - 1);
    }
  }

  /** A solution that no later completed sign-up of the batch overwrites
      survives the rest of the batch. */
  lemma SolutionSurvives(db: seq<Inscription>, st: Stores, sel: seq<nat>, outcome: nat -> Outcome, key: string)
    requires |st.inscriptions| == |db|
    requires forall k :: 0 <= k < |sel| ==> sel[k] < |db|
    requires Distinct(sel)
    requires key in st.solutions
    requires forall q :: 0 <= q < |sel| && outcome(sel[q]).Completed? ==> db[sel[q]].id != key
    ensures key in RunBatch(db, st, sel, outcome).solutions
    ensures RunBatch(db, st, sel, outcome).solutions[key] == st.solutions[key]
  {
    assert key !in CompletedIds(db, sel, outcome) by {
      if key in CompletedIds(db, sel, outcome) {
        CompletedIdsSound(db, sel, outcome, key);
        assert false;
      }
    }
    RunBatchSolutions(db, st, sel, outcome);
  }

  /** One cycle: load, select, run, and save both stores. */
  function ProcessQueue(st: Stores, outcome: nat -> Outcome): (st': Stores)
    ensures |st'.inscriptions| == |st.inscriptions|
    ensures forall i :: 0 <= i < |st.inscriptions| ==>
              st'.inscriptions[i]
              == if i in SelectBatch(st.inscriptions) && outcome(i).Completed?
                 then st.inscriptions[i].(status := Contacted)
                 else st.inscriptions[i]
    ensures st'.solutions.Keys == st.solutions.Keys + CompletedIds(st.inscriptions, SelectBatch(st.inscriptions), outcome)
    ensures forall key :: key in st.solutions && key !in CompletedIds(st.inscriptions, SelectBatch(st.inscriptions), outcome) ==>
              st'.solutions[key] == st.solutions[key]
  {
    RunBatchSolutions(st.inscriptions, st, SelectBatch(st.inscriptions), outcome);
    RunBatch(st.inscriptions, st, SelectBatch(st.inscriptions), outcome)
  }

  /** The solution recorded for a completed sign-up points back at it and
      is marked delivered, unless a later sign-up of the same batch with
      the same id overwrote it. */
  lemma ProcessQueueRecordsSolution(st: Stores, outcome: nat -> Outcome, p: nat)
    requires p < |SelectBatch(st.inscriptions)| && LastWriter(st.inscriptions, SelectBatch(st.inscriptions), outcome, p)
    ensures var r := st.inscriptions[SelectBatch(st.inscriptions)[p]];
      && r.id in ProcessQueue(st, outcome).solutions
      && ProcessQueue(st, outcome).solutions[r.id] == MakeSolution(r, outcome(SelectBatch(st.inscriptions)[p]))
      && ProcessQueue(st, outcome).solutions[r.id].inscriptionId == r.id
      && ProcessQueue(st, outcome).solutions[r.id].status == "delivered"
  {
    RunBatchLastWriter(st.inscriptions, st, SelectBatch(st.inscriptions), outcome, p);
  }

  /*** Saving the stores ***/

  /** How the two writes that end the cycle go: `saveSolutions` runs
      first, then the sign-up store is written. A throw in either escapes
      `processQueue`, so a store the cycle did not reach keeps what was on
      disk when it was loaded. */
  datatype SaveOutcome = SavedBoth | SolutionsSaveThrew | StoreSaveThrew

  /** What is on disk after one cycle, given how the final saves went. */
  function PersistedCycle(st: Stores, outcome: nat -> Outcome, save: SaveOutcome): (disk: Stores)
    ensures save.SavedBoth? ==> disk == ProcessQueue(st, outcome)
    ensures save.SolutionsSaveThrew? ==> disk == st
    ensures save.StoreSaveThrew? ==>
              && disk.inscriptions == st.inscriptions
              && disk.solutions.Keys == st.solutions.Keys + CompletedIds(st.inscriptions, SelectBatch(st.inscriptions), outcome)
              && forall key :: key in st.solutions && key !in CompletedIds(st.inscriptions, SelectBatch(st.inscriptions), outcome) ==>
                   disk.solutions[key] == st.solutions[key]
  {
    var next := ProcessQueue(st, outcome);
    match save
    case SavedBoth => next
    case SolutionsSaveThrew => st
    case StoreSaveThrew => Stores(st.inscriptions, next.solutions)
  }

  /** When either save throws, no sign-up is recorded as contacted, so the
      next cycle selects the same batch again; when only the sign-up store
      failed, the solutions of this cycle are already stored under the
      ids that will be processed again. */
  lemma FailedSaveRepeatsBatch(st: Stores, outcome: nat -> Outcome, save: SaveOutcome)
    requires !save.SavedBoth?
    ensures SelectBatch(PersistedCycle(st, outcome, save).inscriptions) == SelectBatch(st.inscriptions)
    ensures save.StoreSaveThrew? ==>
              forall k :: 0 <= k < |SelectBatch(st.inscriptions)| && outcome(SelectBatch(st.inscriptions)[k]).Completed? ==>
                st.inscriptions[SelectBatch(st.inscriptions)[k]].id in PersistedCycle(st, outcome, save).solutions
  {
  }

  /*** Properties of a cycle ***/

  /** A status only ever moves from pending to contacted, and at most
      three sign-ups change. */
  lemma StatusOnlyAdvances(st: Stores, outcome: nat -> Outcome)
    ensures var st' := ProcessQueue(st, outcome);
      && (forall i :: 0 <= i < |st.inscriptions| && st.inscriptions[i].status != Pending ==>
            st'.inscriptions[i] == st.inscriptions[i])
      && (forall i :: 0 <= i < |st.inscriptions| && st'.inscriptions[i] != st.inscriptions[i] ==>
            st.inscriptions[i].status == Pending && st'.inscriptions[i].status == Contacted
            && i in SelectBatch(st.inscriptions))
      && |SelectBatch(st.inscriptions)| <= 3
  {
  }

  /** A cycle in which no selected sign-up completes changes nothing. */
  lemma {:induction false} RunBatchAllThrow(db: seq<Inscription>, st: Stores, sel: seq<nat>, outcome: nat -> Outcome)
    requires |st.inscriptions| == |db|
    requires forall k :: 0 <= k < |sel| ==> sel[k] < |db| && outcome(sel[k]).Threw?
    requires Distinct(sel)
    ensures RunBatch(db, st, sel, outcome) == st
    decreases |sel|
  {
    if |sel| > 0 {
      RunBatchAllThrow(db, st, sel[1..], outcome);
    }
  }

  /** When every selected sign-up throws, the cycle rewrites both stores
      with the contents they were loaded with. */
  lemma AllThrowKeepsStores(st: Stores, outcome: nat -> Outcome)
    requires forall k :: 0 <= k < |SelectBatch(st.inscriptions)| ==> outcome(SelectBatch(st.inscriptions)[k]).Threw?
    ensures ProcessQueue(st, outcome) == st
  {
    RunBatchAllThrow(st.inscriptions, st, SelectBatch(st.inscriptions), outcome);
  }

  /** With every sign-up pending, the pending positions from `from` are
      all the positions from `from`. */
  lemma {:induction false} AllPendingFrom(db: seq<Inscription>, from: nat)
    requires from <= |db|
    requires forall i :: 0 <= i < |db| ==> db[i].status == Pending
    ensures |PendingFrom(db, from)| == |db| - from
    ensures forall k :: 0 <= k < |db| - from ==> PendingFrom(db, from)[k] == from + k
    decreases |db| - from
  {
    if from < |db| {
      AllPendingFrom(db, from + 1);
      var r := PendingFrom(db, from + 1);
      assert db[from].status == Pending;
      assert PendingFrom(db, from) == [from] + r;
      ConsCounts(from, r, |db| - from - 1);
    }
  }

  /** `[from] + [from + 1, …, from + n]` counts up from `from`. */
  lemma ConsCounts(from: nat, r: seq<nat>, n: nat)
    requires |r| == n
    requires forall k :: 0 <= k < n ==> r[k] == from + 1 + k
    ensures |[from] + r| == n + 1
    ensures forall k :: 0 <= k < n + 1 ==> ([from] + r)[k] == from + k
  {
  }

  /** With every sign-up pending, the batch is the first three positions,
      or all of them when there are fewer. */
  lemma AllPendingSelected(db: seq<Inscription>)
    requires forall i :: 0 <= i < |db| ==> db[i].status == Pending
    ensures |SelectBatch(db)| == if |db| < BatchSize then |db| else BatchSize
    ensures forall k :: 0 <= k < |SelectBatch(db)| ==> SelectBatch(db)[k] == k
  {
    AllPendingFrom(db, 0);
  }

  /** Five pending sign-ups, every stage completing: the first three are
      contacted and the last two stay pending. */
  lemma FivePendingTakesThree(st: Stores, outcome: nat -> Outcome)
    requires |st.inscriptions| == 5
    requires forall i :: 0 <= i < 5 ==> st.inscriptions[i].status == Pending
    requires forall i :: outcome(i).Completed?
    ensures var st' := ProcessQueue(st, outcome);
      && (forall i :: 0 <= i < 3 ==> st'.inscriptions[i].status == Contacted)
      && st'.inscriptions[3] == st.inscriptions[3]
      && st'.inscriptions[4] == st.inscriptions[4]
  {
    AllPendingSelected(st.inscriptions);
    var sel := SelectBatch(st.inscriptions);
    assert sel == [0, 1, 2];
  }

  /** Three pending sign-ups, the second throwing: the first and the third
      are still contacted and get their solutions; the second stays
      pending. */
  lemma FailureIsolation(st: Stores, outcome: nat -> Outcome)
    requires |st.inscriptions| == 3
    requires forall i :: 0 <= i < 3 ==> st.inscriptions[i].status == Pending
    requires outcome(0).Completed? && outcome(1).Threw? && outcome(2).Completed?
    requires st.inscriptions[0].id != st.inscriptions[2].id
    ensures var st' := ProcessQueue(st, outcome);
      && st'.inscriptions[0].status == Contacted
      && st'.inscriptions[1] == st.inscriptions[1]
      && st'.inscriptions[2].status == Contacted
      && st'.solutions[st.inscriptions[0].id] == MakeSolution(st.inscriptions[0], outcome(0))
      && st'.solutions[st.inscriptions[2].id] == MakeSolution(st.inscriptions[2], outcome(2))
  {
    AllPendingSelected(st.inscriptions);
    var sel := SelectBatch(st.inscriptions);
    assert sel == [0, 1, 2];
    ProcessQueueRecordsSolution(st, outcome, 0);
    ProcessQueueRecordsSolution(st, outcome, 2);
  }

  /** Two strictly increasing sequences with the same elements are equal. */
  lemma {:induction false} IncreasingUnique(a: seq<nat>, b: seq<nat>)
    requires Increasing(a) && Increasing(b)
    requires forall x :: x in a <==> x in b
    ensures a == b
    decreases |a|
  {
    HeadIn(a);
    HeadIn(b);
    if |a| > 0 && |b| > 0 {
      assert a[0] == b[0];
      forall x ensures x in a[1..] ==> x in b[1..] {
        if x in a[1..] {
          var k :| 0 <= k < |a[1..]| && a[1..][k] == x;
          assert x in b && x != b[0];
          var l :| 0 <= l < |b| && b[l] == x;
          assert b[1..][l - 1] == x;
        }
      }
      forall x ensures x in b[1..] ==> x in a[1..] {
        if x in b[1..] {
          var k :| 0 <= k < |b[1..]| && b[1..][k] == x;
          assert x in a && x != a[0];
          var l :| 0 <= l < |a| && a[l] == x;
          assert a[1..][l - 1] == x;
        }
      }
      IncreasingUnique(a[1..], b[1..]);
    }
  }

  lemma IncreasingSuffix(s: seq<nat>, m: nat)
    requires Increasing(s) && m <= |s|
    ensures Increasing(s[m..])
  {
    forall k, l | 0 <= k < l < |s[m..]| ensures s[m..][k] < s[m..][l] {
      assert s[m..][k] == s[m + k] && s[m..][l] == s[m + l];
    }
  }

  lemma HeadIn(s: seq<nat>)
    ensures |s| > 0 ==> s[0] in s
  {
  }

  /** The pending list of a store whose pending positions are those of
      `db` minus the first `m` of its pending list. */
  predicate PendingDropped(db: seq<Inscription>, db': seq<Inscription>, m: nat)
    requires m <= |PendingFrom(db, 0)|
  {
    && |db'| == |db|
    && forall i :: 0 <= i < |db| ==>
         (db'[i].status == Pending <==> db[i].status == Pending && i !in PendingFrom(db, 0)[..m])
  }

  lemma PendingDroppedSubset(db: seq<Inscription>, db': seq<Inscription>, m: nat, x: nat)
    requires m <= |PendingFrom(db, 0)| && PendingDropped(db, db', m)
    requires x in PendingFrom(db', 0)
    ensures x in PendingFrom(db, 0)[m..]
  {
    var all := PendingFrom(db, 0);
    var now := PendingFrom(db', 0);
    var n :| 0 <= n < |now| && now[n] == x;
    assert x < |db| && db'[x].status == Pending;
    assert db[x].status == Pending && x !in all[..m];
    assert x in all;
    InSuffix(all, m, x);
  }

  lemma InSuffix(s: seq<nat>, m: nat, x: nat)
    requires m <= |s| && x in s && x !in s[..m]
    ensures x in s[m..]
  {
    assert s == s[..m] + s[m..];
  }

  lemma PendingDroppedSuperset(db: seq<Inscription>, db': seq<Inscription>, m: nat, x: nat)
    requires m <= |PendingFrom(db, 0)| && PendingDropped(db, db', m)
    requires x in PendingFrom(db, 0)[m..]
    ensures x in PendingFrom(db', 0)
  {
    var all := PendingFrom(db, 0);
    var k :| 0 <= k < |all[m..]| && all[m..][k] == x;
    assert all[m + k] == x;
    forall l | 0 <= l < m ensures all[..m][l] != x {
      assert all[l] < all[m + k];
    }
    assert x !in all[..m];
  }

  /** A store whose pending positions are those of `db` minus the first
      `m` has exactly those as its pending list. */
  lemma PendingAfterPrefix(db: seq<Inscription>, db': seq<Inscription>, m: nat)
    requires m <= |PendingFrom(db, 0)| && PendingDropped(db, db', m)
    ensures PendingFrom(db', 0) == PendingFrom(db, 0)[m..]
  {
    var after := PendingFrom(db, 0)[m..];
    forall x ensures x in PendingFrom(db', 0) <==> x in after {
      if x in PendingFrom(db', 0) {
        PendingDroppedSubset(db, db', m, x);
      }
      if x in after {
        PendingDroppedSuperset(db, db', m, x);
      }
    }
    IncreasingSuffix(PendingFrom(db, 0), m);
    IncreasingUnique(PendingFrom(db', 0), after);
  }

  /** When every selected sign-up completes, the next cycle's pending list
      is the current one without its first three: records past the cap
      are picked up in order by later cycles. */
  lemma NextCycleTakesTheRest(st: Stores, outcome: nat -> Outcome)
    requires forall k :: 0 <= k < |SelectBatch(st.inscriptions)| ==> outcome(SelectBatch(st.inscriptions)[k]).Completed?
    ensures PendingFrom(ProcessQueue(st, outcome).inscriptions, 0)
            == PendingFrom(st.inscriptions, 0)[|SelectBatch(st.inscriptions)|..]
  {
    var db := st.inscriptions;
    var sel := SelectBatch(db);
    var all := PendingFrom(db, 0);
    assert sel == all[..|sel|];
    var db' := ProcessQueue(st, outcome).inscriptions;
    forall i | 0 <= i < |db|
      ensures db'[i].status == Pending <==> db[i].status == Pending && i !in sel
    {
      if i in sel {
        var k :| 0 <= k < |sel| && sel[k] == i;
        assert outcome(i).Completed?;
      }
    }
    assert PendingDropped(db, db', |sel|);
    PendingAfterPrefix(db, db', |sel|);
  }
}
