/**
 * The indexer's database, core/chain_indexer.go: the number of finished sections and the hash of
 * each section's last block, and the calls that shrink it, one database write at a time.
 */
module SectionStore {

  type Hash = nat // 0 is the zero hash

  /** What is on disk. */
  datatype Db = Db(count: nat, heads: map<nat, Hash>)

  /** Following k parent links from one hash leads to the other, past no zero hash. */
  ghost predicate Reaches(parentOf: Hash -> Hash, from: Hash, k: nat, to: Hash)
    decreases k
  {
    if k == 0 then from == to else from != 0 && Reaches(parentOf, parentOf(from), k - 1, to)
  }

  lemma {:induction false} ReachesOn(parentOf: Hash -> Hash, a: Hash, j: nat, b: Hash, k: nat, c: Hash)
    requires Reaches(parentOf, a, j, b) && Reaches(parentOf, b, k, c)
    ensures Reaches(parentOf, a, j + k, c)
    decreases j
  {
    if j > 0 {
      ReachesOn(parentOf, parentOf(a), j - 1, b, k, c);
    }
  }

  function HeadBelow(heads: map<nat, Hash>, section: nat): Hash {
    if section > 0 && section - 1 in heads then heads[section - 1] else 0
  }

  /** The section's last block lies a whole section above that of the section below. */
  ghost predicate IsLinked(parentOf: Hash -> Hash, size: nat, heads: map<nat, Hash>, s: nat) {
    s in heads && heads[s] != 0 && Reaches(parentOf, heads[s], size, HeadBelow(heads, s))
  }

  /** The finished sections form one chain without gaps. */
  ghost predicate Good(parentOf: Hash -> Hash, size: nat, db: Db) {
    forall s :: 0 <= s < db.count ==> IsLinked(parentOf, size, db.heads, s)
  }

  /** The chain of finished sections starts at the genesis block. */
  lemma {:induction false} FromGenesis(parentOf: Hash -> Hash, size: nat, db: Db, s: nat)
    requires Good(parentOf, size, db) && s < db.count
    ensures s in db.heads && Reaches(parentOf, db.heads[s], (s + 1) * size, 0)
    decreases s
  {
    assert IsLinked(parentOf, size, db.heads, s);
    if s > 0 {
      FromGenesis(parentOf, size, db, s - 1);
      ReachesOn(parentOf, db.heads[s], size, db.heads[s - 1], s * size, 0);
      assert size + s * size == (s + 1) * size;
    }
  }

  /** Every finished section lies on the chain below any later one. */
  lemma {:induction false} OneChain(parentOf: Hash -> Hash, size: nat, db: Db, s: nat, t: nat)
    requires Good(parentOf, size, db) && s <= t < db.count
    ensures s in db.heads && t in db.heads && Reaches(parentOf, db.heads[t], (t - s) * size, db.heads[s])
    decreases t
  {
    assert IsLinked(parentOf, size, db.heads, s);
    assert IsLinked(parentOf, size, db.heads, t);
    if s < t {
      OneChain(parentOf, size, db, s, t - 1);
      ReachesOn(parentOf, db.heads[t], size, db.heads[t - 1], (t - 1 - s) * size, db.heads[s]);
      assert size + (t - 1 - s) * size == (t - s) * size;
    }
  }

  lemma FewerSections(parentOf: Hash -> Hash, size: nat, db: Db, count: nat)
    requires Good(parentOf, size, db) && count <= db.count
    ensures Good(parentOf, size, db.(count := count))
  {
  }

  /** Heads from the count on do not matter. */
  lemma OtherHeads(parentOf: Hash -> Hash, size: nat, db: Db, heads: map<nat, Hash>)
    requires Good(parentOf, size, db)
    requires forall s :: 0 <= s < db.count ==> s in db.heads && s in heads && heads[s] == db.heads[s]
    ensures Good(parentOf, size, db.(heads := heads))
  {
    forall s | 0 <= s < db.count ensures IsLinked(parentOf, size, heads, s) {
      assert IsLinked(parentOf, size, db.heads, s);
      if s > 0 {
        assert s - 1 in heads && s - 1 in db.heads;
      }
    }
  }

  lemma GoodHeads(parentOf: Hash -> Hash, size: nat, db: Db)
    requires Good(parentOf, size, db)
    ensures forall s :: 0 <= s < db.count ==> s in db.heads && db.heads[s] != 0
  {
    forall s | 0 <= s < db.count ensures s in db.heads && db.heads[s] != 0 {
      assert IsLinked(parentOf, size, db.heads, s);
    }
  }

  /** A head that reaches the one below completes one more section. */
  lemma OneMore(parentOf: Hash -> Hash, size: nat, db: Db, head: Hash)
    requires Good(parentOf, size, db) && size > 0 && Reaches(parentOf, head, size, HeadBelow(db.heads, db.count))
    ensures Good(parentOf, size, db.(heads := db.heads[db.count := head]))
    ensures Good(parentOf, size, Db(db.count + 1, db.heads[db.count := head]))
  {
    var heads := db.heads[db.count := head];
    GoodHeads(parentOf, size, db);
    OtherHeads(parentOf, size, db, heads);
    forall s | 0 <= s < db.count + 1 ensures IsLinked(parentOf, size, heads, s) {
      if s < db.count {
        assert IsLinked(parentOf, size, db.(heads := heads).heads, s);
      }
    }
  }

  /** The heads without those from n up to m. */
  function Without(heads: map<nat, Hash>, n: nat, m: nat): map<nat, Hash> {
    map s | s in heads && !(n <= s < m) :: heads[s]
  }

  lemma OneMoreWithout(heads: map<nat, Hash>, n: nat, m: nat)
    requires 0 < n <= m
    ensures Without(heads, n, m) - {n - 1} == Without(heads, n - 1, m)
  {
  }

  lemma LeftWithout(heads: map<nat, Hash>, n: nat, m: nat)
    ensures forall s :: s in Without(heads, n, m) <==> s in heads && !(n <= s < m)
    ensures forall s :: s in Without(heads, n, m) ==> Without(heads, n, m)[s] == heads[s]
  {
  }

  lemma NoneWithout(heads: map<nat, Hash>, n: nat)
    ensures Without(heads, n, n) == heads
  {
  }

  // ----- setValidSections, write by write -----

  /** Before the count is written, while heads are deleted, and after the counter is set. */
  datatype Phase = Waiting | Deleting | Done

  datatype Call = Call(target: nat, phase: Phase)

  /** The database and the counter in memory. */
  datatype State = State(db: Db, stored: nat)

  /** One action of a call: at most one database write, with the counter's update next to it. */
  function Act(s: State, call: Call): State {
    match call.phase
    case Waiting => s.(db := s.db.(count := call.target))
    case Deleting =>
      if s.stored > call.target
      then State(s.db.(heads := s.db.heads - {s.stored - 1}), s.stored - 1)
      else s.(stored := call.target)
    case Done => s
  }

  function Next(s: State, call: Call): Call {
    match call.phase
    case Waiting => call.(phase := Deleting)
    case Deleting => if s.stored > call.target then call else call.(phase := Done)
    case Done => call
  }

  // ----- a notification and a failed reset at the same time -----

  datatype Race = Race(state: State, note: Call, reset: Call)

  /** One action of the notification or of the reset. */
  function Move(r: Race, byNote: bool): Race {
    if byNote then Race(Act(r.state, r.note), Next(r.state, r.note), r.reset)
    else Race(Act(r.state, r.reset), r.note, Next(r.state, r.reset))
  }

  function After(r: Race, schedule: seq<bool>): Race
    decreases |schedule|
  {
    if schedule == [] then r else After(Move(r, schedule[0]), schedule[1..])
  }

  /** The database is good now and after every action. */
  ghost predicate GoodAlong(parentOf: Hash -> Hash, size: nat, r: Race, schedule: seq<bool>)
    decreases |schedule|
  {
    && Good(parentOf, size, r.state.db)
    && (schedule != [] ==> GoodAlong(parentOf, size, Move(r, schedule[0]), schedule[1..]))
  }

  /** Both are about to begin, on a database in order. Every overlap of the two begins so. */
  ghost predicate IsStart(parentOf: Hash -> Hash, size: nat, r: Race) {
    && Good(parentOf, size, r.state.db) && r.state.stored == r.state.db.count
    && r.note.phase == Waiting && r.note.target < r.state.stored
    && r.reset == Call(0, Waiting)
  }

  predicate Finished(r: Race) {
    r.note.phase == Done && r.reset.phase == Done
  }

  /** The heads from m up to n have been deleted. */
  ghost predicate Emptied(heads: map<nat, Hash>, m: nat, n: nat) {
    forall s :: m <= s < n ==> s !in heads
  }

  // ----- the notification writes its count first -----

  /** Its count is in force until the reset's is, and no head below the count is deleted. */
  ghost predicate NoteLed(parentOf: Hash -> Hash, size: nat, r: Race) {
    && Good(parentOf, size, r.state.db)
    && r.note.phase != Waiting && r.reset.target == 0
    && (if r.reset.phase == Waiting
        then && r.state.db.count == r.note.target <= r.state.stored
             && (r.note.phase == Done ==> r.state.stored == r.note.target)
        else r.state.db.count == 0)
    && (r.reset.phase == Done && r.note.phase != Done ==> r.state.stored == 0)
  }

  lemma NoteLeads(parentOf: Hash -> Hash, size: nat, r: Race)
    requires IsStart(parentOf, size, r)
    ensures NoteLed(parentOf, size, Move(r, true))
  {
    FewerSections(parentOf, size, r.state.db, r.note.target);
  }

  lemma NoteLedMoves(parentOf: Hash -> Hash, size: nat, r: Race, byNote: bool)
    requires NoteLed(parentOf, size, r)
    ensures NoteLed(parentOf, size, Move(r, byNote))
  {
    hide IsLinked;
    var call := if byNote then r.note else r.reset;
    GoodHeads(parentOf, size, r.state.db);
    if call.phase == Waiting {
      FewerSections(parentOf, size, r.state.db, 0);
    } else if call.phase == Deleting && r.state.stored > call.target {
      OtherHeads(parentOf, size, r.state.db, r.state.db.heads - {r.state.stored - 1});
    }
  }

  lemma {:induction false} NoteLedAlong(parentOf: Hash -> Hash, size: nat, r: Race, schedule: seq<bool>)
    requires NoteLed(parentOf, size, r)
    ensures GoodAlong(parentOf, size, r, schedule) && NoteLed(parentOf, size, After(r, schedule))
    decreases |schedule|
  {
    if schedule != [] {
      NoteLedMoves(parentOf, size, r, schedule[0]);
      NoteLedAlong(parentOf, size, Move(r, schedule[0]), schedule[1..]);
    }
  }

  // ----- nothing is to be kept -----

  ghost predicate AllDropped(r: Race) {
    r.note.target == 0 && r.reset.target == 0 && r.state.db.count == 0
    && (r.note.phase == Done || r.reset.phase == Done ==> r.state.stored == 0)
  }

  lemma EmptyIsGood(parentOf: Hash -> Hash, size: nat, heads: map<nat, Hash>)
    ensures Good(parentOf, size, Db(0, heads))
  {
  }

  lemma {:induction false} DroppedAlong(parentOf: Hash -> Hash, size: nat, r: Race, schedule: seq<bool>)
    requires AllDropped(r)
    ensures GoodAlong(parentOf, size, r, schedule) && AllDropped(After(r, schedule))
    decreases |schedule|
  {
    EmptyIsGood(parentOf, size, r.state.db.heads);
    if schedule != [] {
      DroppedAlong(parentOf, size, Move(r, schedule[0]), schedule[1..]);
    }
  }

  // ----- the reset writes its count first -----

  /** The heads are deleted from the top down to m; the reset does not end before it has
      deleted them all; once the notification writes its count it stays. */
  ghost predicate ResetLed(r: Race, m: nat, n: nat) {
    && 0 < r.note.target < n && r.reset.target == 0 && r.reset.phase != Waiting
    && m <= r.state.stored && m <= n && Emptied(r.state.db.heads, m, n)
    && r.state.db.count == (if r.note.phase == Waiting then 0 else r.note.target)
    && (r.reset.phase == Done ==> m == 0)
  }

  lemma ResetLedMoves(r: Race, m: nat, n: nat, byNote: bool) returns (m': nat)
    requires ResetLed(r, m, n)
    ensures ResetLed(Move(r, byNote), m', n)
  {
    var next := Move(r, byNote);
    m' := if next.state.stored < m then next.state.stored else m;
  }

  lemma {:induction false} ResetLedAlong(r: Race, m: nat, n: nat, schedule: seq<bool>)
    requires ResetLed(r, m, n) && Finished(After(r, schedule))
    ensures After(r, schedule).state.db.count == r.note.target > 0
    ensures 0 !in After(r, schedule).state.db.heads
    decreases |schedule|
  {
    if schedule != [] {
      var m' := ResetLedMoves(r, m, n, schedule[0]);
      ResetLedAlong(Move(r, schedule[0]), m', n, schedule[1..]);
    }
  }

  lemma NoFirstHead(parentOf: Hash -> Hash, size: nat, db: Db)
    requires db.count > 0 && 0 !in db.heads
    ensures !Good(parentOf, size, db)
  {
    assert !IsLinked(parentOf, size, db.heads, 0);
  }

  lemma {:induction false} GoodAtEnd(parentOf: Hash -> Hash, size: nat, r: Race, schedule: seq<bool>)
    requires GoodAlong(parentOf, size, r, schedule)
    ensures Good(parentOf, size, After(r, schedule).state.db)
    decreases |schedule|
  {
    if schedule != [] {
      GoodAtEnd(parentOf, size, Move(r, schedule[0]), schedule[1..]);
    }
  }

  /** Exactly which overlaps break the chain on disk: those in which the notification keeps
      some sections and writes its count after the reset has written its own. */
  lemma OverlapGood(parentOf: Hash -> Hash, size: nat, r: Race, schedule: seq<bool>)
    requires IsStart(parentOf, size, r) && Finished(After(r, schedule))
    ensures GoodAlong(parentOf, size, r, schedule) <==> r.note.target == 0 || schedule[0]
  {
    assert schedule != [];
    var first := Move(r, schedule[0]);
    if r.note.target == 0 {
      DroppedAlong(parentOf, size, first, schedule[1..]);
    } else if schedule[0] {
      NoteLeads(parentOf, size, r);
      NoteLedAlong(parentOf, size, first, schedule[1..]);
    } else {
      ResetLedAlong(first, r.state.stored, r.state.stored, schedule[1..]);
      NoFirstHead(parentOf, size, After(r, schedule).state.db);
      if GoodAlong(parentOf, size, r, schedule) {
        GoodAtEnd(parentOf, size, r, schedule);
      }
    }
  }

  /** A notification that begins when the reset is already deleting, and keeps some sections. */
  lemma LateNotification(parentOf: Hash -> Hash, size: nat, r: Race, schedule: seq<bool>)
    requires r.reset == Call(0, Deleting) && r.state.db.count == 0
    requires r.note.phase == Waiting && 0 < r.note.target < r.state.stored && Finished(After(r, schedule))
    ensures !Good(parentOf, size, After(r, schedule).state.db)
  {
    ResetLedAlong(r, r.state.stored, r.state.stored, schedule);
    NoFirstHead(parentOf, size, After(r, schedule).state.db);
  }

  // ----- the counter in memory -----

  /** At some moment the notification has ended and the reset has not. */
  predicate NoteEndsFirst(r: Race, schedule: seq<bool>)
    decreases |schedule|
  {
    || (r.note.phase == Done && r.reset.phase != Done)
    || (schedule != [] && NoteEndsFirst(Move(r, schedule[0]), schedule[1..]))
  }

  lemma {:induction false} StaysFinished(r: Race, schedule: seq<bool>)
    requires Finished(r)
    ensures After(r, schedule) == r
    decreases |schedule|
  {
    if schedule != [] {
      StaysFinished(r, schedule[1..]);
    }
  }

  lemma {:induction false} ResetEndsLast(r: Race, schedule: seq<bool>)
    requires r.note.phase == Done && r.reset.phase != Done && r.reset.target == 0 && Finished(After(r, schedule))
    ensures After(r, schedule).state.stored == 0
    decreases |schedule|
  {
    var next := Move(r, schedule[0]);
    if next.reset.phase == Done {
      StaysFinished(next, schedule[1..]);
    } else {
      ResetEndsLast(next, schedule[1..]);
    }
  }

  lemma {:induction false} NoteEndsLast(r: Race, schedule: seq<bool>)
    requires r.reset.phase == Done && r.note.phase != Done && Finished(After(r, schedule))
    ensures After(r, schedule).state.stored == r.note.target && !NoteEndsFirst(r, schedule)
    decreases |schedule|
  {
    var next := Move(r, schedule[0]);
    if next.note.phase == Done {
      StaysFinished(next, schedule[1..]);
      NeverAgain(next, schedule[1..]);
    } else {
      NoteEndsLast(next, schedule[1..]);
    }
  }

  lemma {:induction false} NeverAgain(r: Race, schedule: seq<bool>)
    requires Finished(r)
    ensures !NoteEndsFirst(r, schedule)
    decreases |schedule|
  {
    if schedule != [] {
      NeverAgain(Move(r, schedule[0]), schedule[1..]);
    }
  }

  lemma {:induction false} WhoEndsLast(r: Race, schedule: seq<bool>)
    requires r.reset.target == 0 && r.note.phase != Done && r.reset.phase != Done && Finished(After(r, schedule))
    ensures After(r, schedule).state.stored == if NoteEndsFirst(r, schedule) then 0 else r.note.target
    decreases |schedule|
  {
    var next := Move(r, schedule[0]);
    if next.note.phase == Done {
      ResetEndsLast(next, schedule[1..]);
    } else if next.reset.phase == Done {
      NoteEndsLast(next, schedule[1..]);
    } else {
      WhoEndsLast(next, schedule[1..]);
    }
  }

  /** Exactly which overlaps leave database and counter in order: those in which the notification
      keeps nothing, or writes its count first and ends first. */
  lemma OverlapEnd(parentOf: Hash -> Hash, size: nat, r: Race, schedule: seq<bool>)
    requires IsStart(parentOf, size, r) && Finished(After(r, schedule))
    ensures var end := After(r, schedule).state;
            Good(parentOf, size, end.db) && end.stored == end.db.count
            <==> r.note.target == 0 || (schedule[0] && NoteEndsFirst(r, schedule))
  {
    assert schedule != [];
    var first := Move(r, schedule[0]);
    WhoEndsLast(r, schedule);
    if r.note.target == 0 {
      DroppedAlong(parentOf, size, first, schedule[1..]);
      EmptyIsGood(parentOf, size, After(r, schedule).state.db.heads);
    } else if schedule[0] {
      NoteLeads(parentOf, size, r);
      NoteLedAlong(parentOf, size, first, schedule[1..]);
    } else {
      ResetLedAlong(first, r.state.stored, r.state.stored, schedule[1..]);
      NoFirstHead(parentOf, size, After(r, schedule).state.db);
    }
  }

  /** Two sections are stored. The reset writes 0, the notification writes 1, the reset deletes
      both heads and ends, the notification ends: one section counted, no head stored. */
  lemma SectionLost(parentOf: Hash -> Hash, size: nat, a: Hash, b: Hash)
    ensures var r := Race(State(Db(2, map[0 := a, 1 := b]), 2), Call(1, Waiting), Call(0, Waiting));
            var end := After(r, [false, true, false, false, false, true]);
            Finished(end) && end.state == State(Db(1, map[]), 1) && !Good(parentOf, size, end.state.db)
  {
    var r := Race(State(Db(2, map[0 := a, 1 := b]), 2), Call(1, Waiting), Call(0, Waiting));
    var r1 := Race(State(Db(0, map[0 := a, 1 := b]), 2), Call(1, Waiting), Call(0, Deleting));
    var r2 := Race(State(Db(1, map[0 := a, 1 := b]), 2), Call(1, Deleting), Call(0, Deleting));
    var r3 := Race(State(Db(1, map[0 := a]), 1), Call(1, Deleting), Call(0, Deleting));
    var r4 := Race(State(Db(1, map[]), 0), Call(1, Deleting), Call(0, Deleting));
    var r5 := Race(State(Db(1, map[]), 0), Call(1, Deleting), Call(0, Done));
    var r6 := Race(State(Db(1, map[]), 1), Call(1, Done), Call(0, Done));
    assert map[0 := a, 1 := b] - {1} == map[0 := a];
    assert map[0 := a] - {0} == map[];
    assert Move(r, false) == r1 && Move(r1, true) == r2 && Move(r2, false) == r3;
    assert Move(r3, false) == r4 && Move(r4, false) == r5 && Move(r5, true) == r6;
    Steps(r, [false, true, false, false, false, true]);
    Steps(r1, [true, false, false, false, true]);
    Steps(r2, [false, false, false, true]);
    Steps(r3, [false, false, true]);
    Steps(r4, [false, true]);
    Steps(r5, [true]);
    NoFirstHead(parentOf, size, r6.state.db);
  }

  lemma Steps(r: Race, schedule: seq<bool>)
    requires schedule != []
    ensures After(r, schedule) == After(Move(r, schedule[0]), schedule[1..])
  {
  }

  /** Three sections are stored and the notification keeps two, writes first and ends last: nothing
      is counted on disk and two sections in memory, so that a later notification that keeps one
      section counts it although its head is gone. */
  lemma CounterAhead(parentOf: Hash -> Hash, size: nat, heads: map<nat, Hash>)
    requires heads.Keys == {0, 1, 2}
    ensures var r := Race(State(Db(3, heads), 3), Call(2, Waiting), Call(0, Waiting));
            var end := After(r, [true, false, false, false, false, false, true]);
            && Finished(end) && end.state == State(Db(0, map[]), 2)
            && !Good(parentOf, size, Act(end.state, Call(1, Waiting)).db)
  {
    var r := Race(State(Db(3, heads), 3), Call(2, Waiting), Call(0, Waiting));
    var r1 := Race(State(Db(2, heads), 3), Call(2, Deleting), Call(0, Waiting));
    var r2 := Race(State(Db(0, heads), 3), Call(2, Deleting), Call(0, Deleting));
    var r3 := Race(State(Db(0, heads - {2}), 2), Call(2, Deleting), Call(0, Deleting));
    var r4 := Race(State(Db(0, heads - {2} - {1}), 1), Call(2, Deleting), Call(0, Deleting));
    var r5 := Race(State(Db(0, map[]), 0), Call(2, Deleting), Call(0, Deleting));
    var r6 := Race(State(Db(0, map[]), 0), Call(2, Deleting), Call(0, Done));
    var r7 := Race(State(Db(0, map[]), 2), Call(2, Done), Call(0, Done));
    assert heads - {2} - {1} - {0} == map[];
    assert Move(r, true) == r1 && Move(r1, false) == r2 && Move(r2, false) == r3 && Move(r3, false) == r4;
    assert Move(r4, false) == r5 && Move(r5, false) == r6 && Move(r6, true) == r7;
    Steps(r, [true, false, false, false, false, false, true]);
    Steps(r1, [false, false, false, false, false, true]);
    Steps(r2, [false, false, false, false, true]);
    Steps(r3, [false, false, false, true]);
    Steps(r4, [false, false, true]);
    Steps(r5, [false, true]);
    Steps(r6, [true]);
    NoFirstHead(parentOf, size, Db(1, map[]));
  }
}
