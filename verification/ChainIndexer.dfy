/**
 * The chain indexer, core/chain_indexer.go: sections of the chain are processed in the
 * background, without the lock, while notifications of new heads and of reorganisations come in
 * under it. A failed reset shrinks the database without the lock, so its writes and those of a
 * notification may alternate.
 */
module ChainIndexer {
  import opened SectionStore
  import opened Wrappers

  /** The section being processed: picked up, read up to number with the given last hash, or
      given up because the reset failed. After a failure the update loop has yet to take note. */
  datatype Work =
    | Idle
    | Picked(section: nat, oldHead: Hash)
    | Busy(section: nat, oldHead: Hash, number: nat, lastHead: Hash)
    | Clearing(call: Call)
    | Failed

  datatype Event =
    | NewHead(head: nat, reorg: bool) // a notification begins
    | NoteStep // and goes on
    | PickUp
    | Reset(ok: bool)
    | ResetStep // a failed reset goes on
    | Read(hash: Hash, found: bool)
    | Finish(commitOk: bool)

  function Min(a: nat, b: nat): nat {
    if a <= b then a else b
  }

  function Max(a: nat, b: nat): nat {
    if a >= b then a else b
  }

  /** The sections that are complete and confirmed when the chain has the given head. */
  function Confirmed(head: nat, confirms: nat, size: nat): nat
    requires size > 0
  {
    if head < confirms then 0 else (head + 1 - confirms) / size
  }

  /** All blocks of the section have numbers below n. */
  predicate EndsBefore(section: nat, size: nat, n: int) {
    (section + 1) * size <= n
  }

  /** A quotient counts the sections that end before. */
  lemma Whole(section: nat, size: nat, n: nat)
    requires size > 0
    ensures section < n / size <==> EndsBefore(section, size, n)
  {
    var q := n / size;
    assert q * size <= n < (q + 1) * size;
    if section < q {
      assert (section + 1) * size <= q * size;
    } else {
      assert (q + 1) * size <= (section + 1) * size;
    }
  }

  /** A section counts as confirmed exactly if its last block has the required confirmations. */
  lemma ConfirmedIs(section: nat, head: nat, confirms: nat, size: nat)
    requires size > 0
    ensures section < Confirmed(head, confirms, size) <==> EndsBefore(section, size, head + 1 - confirms)
  {
    if head < confirms {
      assert (section + 1) * size > 0;
    } else {
      Whole(section, size, head + 1 - confirms);
    }
  }

  /** Whether a section is known after a notification: a reorganisation leaves those that end
      before the new head; otherwise the confirmed ones come in addition. */
  predicate IsKnown(section: nat, was: nat, head: nat, reorg: bool, confirms: nat, size: nat) {
    if reorg then section < was && EndsBefore(section, size, head)
    else section < was || EndsBefore(section, size, head + 1 - confirms)
  }

  lemma KnownIs(section: nat, was: nat, head: nat, reorg: bool, confirms: nat, size: nat)
    requires size > 0
    ensures IsKnown(section, was, head, reorg, confirms, size) <==>
              section < if reorg then Min(was, head / size) else Max(was, Confirmed(head, confirms, size))
  {
    hide EndsBefore, Confirmed;
    Whole(section, size, head);
    ConfirmedIs(section, head, confirms, size);
  }

  /** The section was the next one when it was picked up. If sections have been taken back since,
      their heads are gone. */
  ghost predicate IsPicked(state: State, section: nat, oldHead: Hash) {
    && state.stored <= section
    && (forall s :: state.stored <= s < section ==> s !in state.db.heads)
    && (state.stored == section ==> oldHead == HeadBelow(state.db.heads, section))
    && (oldHead == 0 <==> section == 0)
  }

  /** What is known while a section is processed. */
  ghost predicate Working(parentOf: Hash -> Hash, size: nat, state: State, work: Work) {
    match work
    case Picked(section, oldHead) => IsPicked(state, section, oldHead)
    case Busy(section, oldHead, number, lastHead) =>
      && IsPicked(state, section, oldHead)
      && section * size <= number <= (section + 1) * size
      && Reaches(parentOf, lastHead, number - section * size, oldHead)
    case Clearing(call) => call.target == 0 && call.phase != Done
    case _ => true
  }

  /** A failed reset has written its count and is deleting. */
  predicate IsDeleting(work: Work) {
    work.Clearing? && work.call.phase == Deleting
  }

  /** Counter and database agree, up to what a notification or a reset in progress has yet to do. */
  ghost predicate InOrder(state: State, work: Work, note: Option<Call>) {
    && (IsDeleting(work) ==> state.db.count == 0)
    && (!IsDeleting(work) && (note.None? || note.value.phase == Waiting) ==> state.stored == state.db.count)
    && (!IsDeleting(work) && note.Some? && note.value.phase == Deleting ==>
          || state.db.count == note.value.target <= state.stored
          || (state.db.count == 0 && state.stored == 0))
    && (note.Some? ==> note.value.phase != Done)
    && (work.Picked? || work.Busy? ==> note.Some? && note.value.phase == Deleting ==> state.db.count == note.value.target)
  }

  /** The next action of a notification does no harm: it keeps nothing, or it does not write its
      count after a reset's nor set the counter after a reset has ended. */
  predicate IsHarmless(state: State, work: Work, call: Call) {
    || call.target == 0
    || (if call.phase == Waiting then !IsDeleting(work) && call.target <= state.stored
        else state.stored > call.target || IsDeleting(work) || state.db.count == call.target)
  }

  /** A notification does no harm unless a failed reset is deleting or has lowered the count below
      what the notification keeps. */
  lemma UndisturbedIsHarmless(state: State, work: Work, call: Call)
    requires InOrder(state, work, Some(call)) && !IsDeleting(work) && call.target <= state.db.count
    ensures IsHarmless(state, work, call)
  {
  }

  /** A call under the given conditions keeps the database good. */
  lemma ActKeeps(parentOf: Hash -> Hash, size: nat, s: State, call: Call)
    requires Good(parentOf, size, s.db)
    requires call.phase == Waiting ==> call.target <= s.db.count || call.target == 0
    requires call.phase == Deleting && s.stored > call.target ==> s.db.count < s.stored
    ensures Good(parentOf, size, Act(s, call).db)
  {
    hide IsLinked;
    GoodHeads(parentOf, size, s.db);
    if call.phase == Waiting {
      if call.target == 0 {
        EmptyIsGood(parentOf, size, s.db.heads);
      } else {
        FewerSections(parentOf, size, s.db, call.target);
      }
    } else if call.phase == Deleting && s.stored > call.target {
      OtherHeads(parentOf, size, s.db, s.db.heads - {s.stored - 1});
    }
  }

  /** An action of a notification keeps what is known of a section in progress. */
  lemma NoteKeepsWork(parentOf: Hash -> Hash, size: nat, s: State, work: Work, call: Call)
    requires Good(parentOf, size, s.db) && Working(parentOf, size, s, work) && InOrder(s, work, Some(call))
    requires IsHarmless(s, work, call)
    ensures Working(parentOf, size, Act(s, call), work)
  {
    hide Reaches, IsLinked;
    GoodHeads(parentOf, size, s.db);
  }

  lemma NoteKeepsOrder(s: State, work: Work, call: Call)
    requires InOrder(s, work, Some(call)) && IsHarmless(s, work, call)
    ensures InOrder(Act(s, call), work, if Next(s, call).phase == Done then None else Some(Next(s, call)))
  {
  }

  // ----- runs without overlaps, on values -----

  /** A whole notification, a whole reset, or a step of section processing. */
  datatype Step =
    | Notification(head: nat, reorg: bool)
    | Pick
    | WholeReset(ok: bool)
    | ReadBlock(hash: Hash, found: bool)
    | FinishSection(commitOk: bool)

  datatype View = View(state: State, known: nat, work: Work)

  datatype Chain = Chain(parentOf: Hash -> Hash, size: nat, confirms: nat)

  /** Database and counter once only the sections below n are left. */
  function Truncated(s: State, n: nat): State {
    if n < s.stored then State(Db(n, Without(s.db.heads, n, s.stored)), n) else s
  }

  /** All blocks of the section have been read. */
  predicate AllRead(size: nat, work: Work) {
    work.Busy? && work.number == (work.section + 1) * size
  }

  /** The section is entered: it is committed, and its predecessor is still there. */
  predicate Enters(c: Chain, v: View, step: Step) {
    step.FinishSection? && step.commitOk && AllRead(c.size, v.work) && v.state.stored == v.work.section
  }

  function Concluded(c: Chain, v: View, step: Step): View
    requires step.FinishSection?
  {
    var s := v.state;
    if Enters(c, v, step) then
      View(State(Db(s.stored + 1, s.db.heads[s.stored := v.work.lastHead]), s.stored + 1), v.known, Idle)
    else if v.work.Failed? || AllRead(c.size, v.work) then
      View(s, s.stored, Idle)
    else
      v
  }

  function Turn(c: Chain, v: View, step: Step): View
    requires c.size > 0
  {
    match step
    case Notification(head, reorg) =>
      if reorg
      then View(Truncated(v.state, head / c.size), Min(v.known, head / c.size), v.work)
      else v.(known := Max(v.known, Confirmed(head, c.confirms, c.size)))
    case Pick =>
      if v.work == Idle && v.known > v.state.stored
      then v.(work := Picked(v.state.stored, HeadBelow(v.state.db.heads, v.state.stored))) else v
    case WholeReset(ok) =>
      if !v.work.Picked? then v
      else if ok then v.(work := Busy(v.work.section, v.work.oldHead, v.work.section * c.size, v.work.oldHead))
      else View(Truncated(v.state, 0), v.known, Failed)
    case ReadBlock(hash, found) =>
      if !v.work.Busy? || v.work.number >= (v.work.section + 1) * c.size then v
      else if hash != 0 && found && c.parentOf(hash) == v.work.lastHead
      then v.(work := v.work.(number := v.work.number + 1, lastHead := hash)) else v.(work := Failed)
    case FinishSection(_) => Concluded(c, v, step)
  }

  function Turned(c: Chain, v: View, steps: seq<Step>): View
    requires c.size > 0
  {
    if steps == [] then v else Turn(c, Turned(c, v, steps[..|steps| - 1]), steps[|steps| - 1])
  }

  predicate WithinKnown(v: View) {
    v.state.stored <= v.known
  }

  /** A section is entered that is no longer known. */
  predicate IsOvertaken(c: Chain, v: View, step: Step) {
    Enters(c, v, step) && v.known <= v.work.section
  }

  /** As many sections are known as stored after every step exactly if it was so at the start and
      no section is entered that is no longer known. */
  lemma {:induction false} StoredWithinKnown(c: Chain, v: View, steps: seq<Step>)
    requires c.size > 0
    ensures (forall i :: 0 <= i <= |steps| ==> WithinKnown(Turned(c, v, steps[..i])))
            <==> WithinKnown(v) && forall i :: 0 <= i < |steps| ==> !IsOvertaken(c, Turned(c, v, steps[..i]), steps[i])
  {
    hide Turn, IsOvertaken, WithinKnown;
    assert steps[..0] == [];
    if WithinKnown(v) && forall i :: 0 <= i < |steps| ==> !IsOvertaken(c, Turned(c, v, steps[..i]), steps[i]) {
      for n := 0 to |steps|
        invariant forall i :: 0 <= i <= n ==> WithinKnown(Turned(c, v, steps[..i]))
      {
        TurnedStep(c, v, steps, n);
        OneTurn(c, Turned(c, v, steps[..n]), steps[n]);
      }
    }
    if forall i :: 0 <= i <= |steps| ==> WithinKnown(Turned(c, v, steps[..i])) {
      forall i | 0 <= i < |steps| ensures !IsOvertaken(c, Turned(c, v, steps[..i]), steps[i]) {
        TurnedStep(c, v, steps, i);
        OneTurn(c, Turned(c, v, steps[..i]), steps[i]);
      }
    }
  }

  lemma OneTurn(c: Chain, v: View, step: Step)
    requires c.size > 0 && WithinKnown(v)
    ensures WithinKnown(Turn(c, v, step)) <==> !IsOvertaken(c, v, step)
  {
  }

  lemma TurnedStep(c: Chain, v: View, steps: seq<Step>, n: nat)
    requires c.size > 0 && n < |steps|
    ensures Turned(c, v, steps[..n + 1]) == Turn(c, Turned(c, v, steps[..n]), steps[n])
  {
    var more := steps[..n + 1];
    assert more[..|more| - 1] == steps[..n];
  }

  // ----- runs with overlaps, on values -----

  /** The indexer with a notification that may be in progress. */
  datatype Full = Full(view: View, note: Option<Call>)

  function Happen(c: Chain, v: Full, e: Event): Full
    requires c.size > 0
  {
    var View(state, known, work) := v.view;
    match e
    case NewHead(head, reorg) =>
      if v.note.Some? then v
      else if !reorg then v.(view := Turn(c, v.view, Notification(head, false)))
      else
        var changed := head / c.size;
        Full(v.view.(known := Min(known, changed)), if changed < state.stored then Some(Call(changed, Waiting)) else None)
    case NoteStep =>
      if v.note.None? then v
      else
        var next := Next(state, v.note.value);
        Full(v.view.(state := Act(state, v.note.value)), if next.phase == Done then None else Some(next))
    case PickUp => if v.note.Some? then v else v.(view := Turn(c, v.view, Pick))
    case Reset(ok) =>
      if ok || !work.Picked? then v.(view := Turn(c, v.view, WholeReset(true)))
      else v.(view := v.view.(work := Clearing(Call(0, Waiting))))
    case ResetStep =>
      if !work.Clearing? then v
      else
        var next := Next(state, work.call);
        v.(view := View(Act(state, work.call), known, if next.phase == Done then Failed else Clearing(next)))
    case Read(hash, found) => v.(view := Turn(c, v.view, ReadBlock(hash, found)))
    case Finish(commitOk) => if v.note.Some? then v else v.(view := Turn(c, v.view, FinishSection(commitOk)))
  }

  function Happened(c: Chain, v: Full, events: seq<Event>): Full
    requires c.size > 0
  {
    if events == [] then v else Happen(c, Happened(c, v, events[..|events| - 1]), events[|events| - 1])
  }

  lemma HappenedStep(c: Chain, v: Full, events: seq<Event>, n: nat)
    requires c.size > 0 && n < |events|
    ensures Happened(c, v, events[..n + 1]) == Happen(c, Happened(c, v, events[..n]), events[n])
  {
    var more := events[..n + 1];
    assert more[..|more| - 1] == events[..n];
  }

  function Repeat(k: nat): seq<Event> {
    if k == 0 then [] else Repeat(k - 1) + [NoteStep]
  }

  /** A notification that takes sections back, before its first action, and with its count written
      and k heads deleted. */
  function Noted(v: View, changed: nat): Full {
    Full(v.(known := Min(v.known, changed)), Some(Call(changed, Waiting)))
  }

  function Halfway(v: View, changed: nat, k: nat): Full
    requires k <= v.state.stored
  {
    var n := v.state.stored;
    Full(View(State(Db(changed, Without(v.state.db.heads, n - k, n)), n - k), Min(v.known, changed), v.work),
         Some(Call(changed, Deleting)))
  }

  lemma CountFirst(c: Chain, v: View, changed: nat)
    requires c.size > 0
    ensures Happen(c, Noted(v, changed), NoteStep) == Halfway(v, changed, 0)
  {
    NoneWithout(v.state.db.heads, v.state.stored);
  }

  lemma OneHead(c: Chain, v: View, changed: nat, k: nat)
    requires c.size > 0 && changed + k < v.state.stored
    ensures Happen(c, Halfway(v, changed, k), NoteStep) == Halfway(v, changed, k + 1)
  {
    OneMoreWithout(v.state.db.heads, v.state.stored - k, v.state.stored);
  }

  lemma RepeatStep(c: Chain, v: Full, k: nat)
    requires c.size > 0
    ensures Happened(c, v, Repeat(0)) == v
    ensures Happened(c, v, Repeat(k + 1)) == Happen(c, Happened(c, v, Repeat(k)), NoteStep)
  {
    hide Happen;
    var more := Repeat(k + 1);
    assert more == Repeat(k) + [NoteStep] && more[..|more| - 1] == Repeat(k);
  }

  lemma {:induction false} StepsDelete(c: Chain, v: View, changed: nat, k: nat)
    requires c.size > 0 && changed + k <= v.state.stored
    ensures Happened(c, Noted(v, changed), Repeat(k + 1)) == Halfway(v, changed, k)
  {
    hide Happen, Happened, Halfway, Noted, Repeat;
    RepeatStep(c, Noted(v, changed), k);
    if k == 0 {
      CountFirst(c, v, changed);
    } else {
      StepsDelete(c, v, changed, k - 1);
      OneHead(c, v, changed, k - 1);
    }
  }

  /** The actions of a notification that takes sections back, done one after the other, come to
      what the whole notification does. */
  lemma StepsAreWhole(c: Chain, v: View, head: nat)
    requires c.size > 0 && head / c.size < v.state.stored
    ensures var start := Happen(c, Full(v, None), NewHead(head, true));
            Happened(c, start, Repeat(v.state.stored - head / c.size + 2)) == Full(Turn(c, v, Notification(head, true)), None)
  {
    hide Happened, Repeat;
    var changed := head / c.size;
    var k := v.state.stored - changed;
    StepsDelete(c, v, changed, k);
    RepeatStep(c, Noted(v, changed), k + 1);
  }

  class Indexer {
    const parentOf: Hash -> Hash
    const sectionSize: nat
    const confirmsReq: nat
    var db: Db
    var storedSections: nat
    var knownSections: nat
    var cascadedHead: nat
    var work: Work
    var note: Option<Call> // what the notification that holds the lock has yet to do
    ghost var writes: seq<Db> // the database after every single write

    ghost function Stored(): State
      reads this
    {
      State(db, storedSections)
    }

    ghost function Seen(): View
      reads this
    {
      View(Stored(), knownSections, work)
    }

    ghost function Rules(): Chain {
      Chain(parentOf, sectionSize, confirmsReq)
    }

    ghost predicate Valid()
      reads this
    {
      && sectionSize > 0
      && Good(parentOf, sectionSize, db)
      && (forall d :: d in writes ==> Good(parentOf, sectionSize, d))
      && Working(parentOf, sectionSize, Stored(), work)
      && InOrder(Stored(), work, note)
    }

    /** Nothing is in the middle of its writes. */
    ghost predicate Quiet()
      reads this
    {
      Valid() && note == None && !work.Clearing?
    }

    /** Starts on whatever a previous run has left on disk. */
    constructor (parentOf: Hash -> Hash, sectionSize: nat, confirmsReq: nat, db: Db)
      requires sectionSize > 0 && Good(parentOf, sectionSize, db)
      ensures Quiet() && work == Idle && this.db == db && this.parentOf == parentOf
      ensures this.sectionSize == sectionSize && this.confirmsReq == confirmsReq
      ensures knownSections == 0 && cascadedHead == 0 && writes == []
    {
      this.parentOf, this.sectionSize, this.confirmsReq := parentOf, sectionSize, confirmsReq;
      this.db, storedSections := db, db.count;
      knownSections, cascadedHead, work, note, writes := 0, 0, Idle, None, [];
    }

    /** One action of a call of setValidSections. */
    method TakeAction(call: Call) returns (next: Call)
      requires Good(parentOf, sectionSize, Act(Stored(), call).db)
      requires forall d :: d in writes ==> Good(parentOf, sectionSize, d)
      modifies this`db, this`storedSections, this`writes
      ensures Stored() == Act(old(Stored()), call) && next == Next(old(Stored()), call)
      ensures writes == if db == old(db) then old(writes) else old(writes) + [db]
      ensures forall d :: d in writes ==> Good(parentOf, sectionSize, d)
    {
      hide Good;
      next := call;
      match call.phase {
        case Waiting =>
          db := db.(count := call.target);
          next := call.(phase := Deleting);
        case Deleting =>
          if storedSections > call.target {
            storedSections := storedSections - 1;
            db := db.(heads := db.heads - {storedSections});
          } else {
            storedSections := call.target;
            next := call.(phase := Done);
          }
        case Done =>
      }
      if db != old(db) {
        writes := writes + [db];
      }
    }

    /** newHead, for this indexer, up to the point where sections have to be taken back. It takes
        the lock, so it does not begin while another one is in progress. */
    method OnNewHead(head: nat, reorg: bool)
      requires Valid()
      modifies this`knownSections, this`cascadedHead, this`note
      ensures Valid()
      ensures old(note.Some?) ==>
                note == old(note) && knownSections == old(knownSections) && cascadedHead == old(cascadedHead)
      ensures old(note.None?) && reorg ==> var changed := head / sectionSize;
                && knownSections == Min(old(knownSections), changed)
                && note == (if changed < storedSections then Some(Call(changed, Waiting)) else None)
                && cascadedHead == if note.None? then Min(old(cascadedHead), changed * sectionSize) else old(cascadedHead)
      ensures old(note.None?) && !reorg ==>
                && note.None? && cascadedHead == old(cascadedHead)
                && knownSections == Max(old(knownSections), Confirmed(head, confirmsReq, sectionSize))
      ensures old(note.None?) ==>
                forall s: nat :: s < knownSections <==> IsKnown(s, old(knownSections), head, reorg, confirmsReq, sectionSize)
    {
      hide Good, Working, IsKnown;
      if note.Some? {
        return;
      }
      ghost var known := knownSections;
      forall s: nat {
        KnownIs(s, known, head, reorg, confirmsReq, sectionSize);
      }
      if reorg {
        var changed := head / sectionSize;
        if changed < knownSections {
          knownSections := changed;
        }
        if changed < storedSections {
          note := Some(Call(changed, Waiting));
        } else {
          Cascade(changed);
        }
        return;
      }
      if head >= confirmsReq {
        var sections := (head + 1 - confirmsReq) / sectionSize;
        if sections > knownSections {
          knownSections := sections;
        }
      }
    }

    /** The head that children are told falls back to the end of the finalized sections. */
    method Cascade(changed: nat)
      modifies this`cascadedHead
      ensures cascadedHead == Min(old(cascadedHead), changed * sectionSize)
    {
      var finalized := changed * sectionSize;
      if finalized < cascadedHead {
        cascadedHead := finalized;
      }
    }

    /** The next action of the notification in progress. */
    method OnNoteStep()
      requires Valid() && (note.Some? ==> IsHarmless(Stored(), work, note.value))
      modifies this`db, this`storedSections, this`writes, this`note, this`cascadedHead
      ensures Valid() && old(writes) <= writes
      ensures old(note.Some?) ==>
                && Stored() == Act(old(Stored()), old(note.value))
                && var next := Next(old(Stored()), old(note.value)); note == if next.phase == Done then None else Some(next)
      ensures cascadedHead == if old(note.Some?) && note.None?
                              then Min(old(cascadedHead), old(note.value).target * sectionSize) else old(cascadedHead)
      ensures old(note.None?) ==> Stored() == old(Stored()) && note == None
    {
      hide Good, Working, IsHarmless;
      if note.None? {
        return;
      }
      NoteMayAct(parentOf, sectionSize, Stored(), work, note.value);
      NoteKeepsWork(parentOf, sectionSize, Stored(), work, note.value);
      NoteKeepsOrder(Stored(), work, note.value);
      var target := note.value.target;
      var next := TakeAction(note.value);
      if next.phase == Done {
        note := None;
        Cascade(target);
      } else {
        note := Some(next);
      }
    }

    /** The update loop picks the next section up, with the head below it. It takes the lock. */
    method OnPickUp()
      requires Valid()
      modifies this`work
      ensures Valid()
      ensures if old(work == Idle) && note.None? && knownSections > storedSections
              then work == Picked(storedSections, HeadBelow(db.heads, storedSections)) else work == old(work)
    {
      hide IsLinked;
      if work != Idle || note.Some? || knownSections <= storedSections {
        return;
      }
      GoodHeads(parentOf, sectionSize, db);
      var oldHead := if storedSections > 0 && storedSections - 1 in db.heads then db.heads[storedSections - 1] else 0;
      work := Picked(storedSections, oldHead);
    }

    /** The backend is reset for the section; if that fails, all sections are to be dropped. */
    method OnReset(ok: bool)
      requires Valid()
      modifies this`work
      ensures Valid()
      ensures old(work.Picked?) ==>
                var Picked(section, oldHead) := old(work);
                work == if ok then Busy(section, oldHead, section * sectionSize, oldHead) else Clearing(Call(0, Waiting))
      ensures !old(work.Picked?) ==> work == old(work)
    {
      hide Good;
      if !work.Picked? {
        return;
      }
      var Picked(section, oldHead) := work;
      work := if ok then Busy(section, oldHead, section * sectionSize, oldHead) else Clearing(Call(0, Waiting));
    }

    /** The next action of a failed reset, without the lock. */
    method OnResetStep()
      requires Valid()
      modifies this`db, this`storedSections, this`writes, this`work
      ensures Valid() && old(writes) <= writes
      ensures old(work.Clearing?) ==>
                && Stored() == Act(old(Stored()), old(work).call)
                && var next := Next(old(Stored()), old(work).call);
                   work == if next.phase == Done then Failed else Clearing(next)
      ensures !old(work.Clearing?) ==> Stored() == old(Stored()) && work == old(work)
    {
      hide Good;
      if !work.Clearing? {
        return;
      }
      ActKeeps(parentOf, sectionSize, Stored(), work.call);
      var next := TakeAction(work.call);
      work := if next.phase == Done then Failed else Clearing(next);
    }

    /** processSection reads one more block: the hash the chain has for the next number at
        this moment, and whether its header is there. */
    method OnRead(hash: Hash, found: bool)
      requires Valid()
      modifies this`work
      ensures Valid()
      ensures if old(work.Busy? && work.number < (work.section + 1) * sectionSize)
              then work == (if hash != 0 && found && parentOf(hash) == old(work).lastHead
                            then old(work).(number := old(work).number + 1, lastHead := hash) else Failed)
              else work == old(work)
    {
      hide Good;
      if !work.Busy? || work.number >= (work.section + 1) * sectionSize {
        return;
      }
      if hash == 0 || !found || parentOf(hash) != work.lastHead {
        work := Failed;
        return;
      }
      work := work.(number := work.number + 1, lastHead := hash);
    }

    /** All blocks of the section are read. */
    predicate IsRead()
      reads this
    {
      AllRead(sectionSize, work)
    }

    /** Nothing is entered, and no more sections count as known than are stored. */
    ghost predicate Undone(was: State, head: nat)
      reads this
    {
      Stored() == was && knownSections == storedSections && work == Idle && cascadedHead == head
    }

    /** The backend commits, and under the lock the section is entered unless its predecessor has
        gone. Otherwise no more sections count as known than are stored. */
    method OnFinish(commitOk: bool)
      requires Valid()
      modifies this
      ensures Valid() && old(writes) <= writes && note == old(note)
      ensures old(note.None? && IsRead() && storedSections == work.section) && commitOk ==>
                && db == Db(old(storedSections) + 1, old(db).heads[old(storedSections) := old(work).lastHead])
                && storedSections == old(storedSections) + 1 && work == Idle && knownSections == old(knownSections)
                && cascadedHead == storedSections * sectionSize - 1
                && (storedSections <= knownSections <==> old(knownSections > storedSections))
      ensures old(note.None? && work.Failed?) ==> Undone(old(Stored()), old(cascadedHead))
      ensures old(note.None? && IsRead()) && !(commitOk && old(storedSections == work.section)) ==>
                Undone(old(Stored()), old(cascadedHead))
      ensures old(note.Some? || !(work.Failed? || IsRead())) ==>
                Stored() == old(Stored()) && knownSections == old(knownSections) && work == old(work)
    {
      hide Good, Reaches;
      if note.Some? || !(work.Failed? || IsRead()) {
        return;
      }
      var below := if work.Busy? && work.section > 0 && work.section - 1 in db.heads then db.heads[work.section - 1] else 0;
      if work.Failed? || !commitOk || work.oldHead != below {
        knownSections := storedSections;
        work := Idle;
        return;
      }
      Enter(work.section, work.lastHead);
      work := Idle;
      cascadedHead := storedSections * sectionSize - 1;
    }

    /** The section's head and then the count are written. */
    method Enter(section: nat, newHead: Hash)
      requires sectionSize > 0 && Good(parentOf, sectionSize, db)
      requires forall d :: d in writes ==> Good(parentOf, sectionSize, d)
      requires storedSections == db.count == section
      requires Reaches(parentOf, newHead, sectionSize, HeadBelow(db.heads, section))
      modifies this`db, this`storedSections, this`writes
      ensures Good(parentOf, sectionSize, db) && forall d :: d in writes ==> Good(parentOf, sectionSize, d)
      ensures Stored() == State(Db(section + 1, old(db).heads[section := newHead]), section + 1)
      ensures |writes| >= 2 && writes[|writes| - 2] == Db(section, old(db).heads[section := newHead])
              && writes[|writes| - 1] == db
      ensures old(writes) <= writes
    {
      hide Good, Reaches;
      OneMore(parentOf, sectionSize, db, newHead);
      db := db.(heads := db.heads[section := newHead]);
      writes := writes + [db];
      var call := TakeAction(Call(section + 1, Waiting));
      call := TakeAction(call);
    }

    // ----- runs -----

    /** Any interleaving of the actions of notifications, of failed resets and of section
        processing, up to the first action that does harm: the database is good after every
        single write. */
    method Run(events: seq<Event>) returns (n: nat)
      requires Valid()
      modifies this
      ensures Valid() && old(writes) <= writes
      ensures forall d :: d in writes ==> Good(parentOf, sectionSize, d)
      ensures n <= |events|
      ensures n < |events| ==> events[n].NoteStep? && note.Some? && !IsHarmless(Stored(), work, note.value)
      ensures Full(Seen(), note) == Happened(Rules(), old(Full(Seen(), note)), events[..n])
    {
      hide Good, Working, InOrder, IsHarmless, Happen;
      n := 0;
      ghost var start := Full(Seen(), note);
      assert events[..0] == [];
      while n < |events|
        invariant Valid() && old(writes) <= writes && n <= |events|
        invariant Full(Seen(), note) == Happened(Rules(), start, events[..n])
      {
        if events[n].NoteStep? && note.Some? && !IsHarmless(State(db, storedSections), work, note.value) {
          return;
        }
        HappenedStep(Rules(), start, events, n);
        React(events[n]);
        n := n + 1;
      }
    }

    /** One event. */
    method React(e: Event)
      requires Valid() && (e.NoteStep? && note.Some? ==> IsHarmless(Stored(), work, note.value))
      modifies this
      ensures Valid() && old(writes) <= writes
      ensures Full(Seen(), note) == Happen(Rules(), old(Full(Seen(), note)), e)
    {
      hide Good, Working, InOrder, IsHarmless;
      match e {
        case NewHead(head, reorg) => OnNewHead(head, reorg);
        case NoteStep => OnNoteStep();
        case PickUp => OnPickUp();
        case Reset(ok) => OnReset(ok);
        case ResetStep => OnResetStep();
        case Read(hash, found) => OnRead(hash, found);
        case Finish(commitOk) => OnFinish(commitOk);
      }
    }

    // ----- runs without overlaps -----

    /** A notification from beginning to end. */
    method Notify(head: nat, reorg: bool)
      requires Quiet()
      modifies this`db, this`storedSections, this`writes, this`note, this`cascadedHead, this`knownSections
      ensures Quiet() && old(writes) <= writes
      ensures reorg ==> var changed := head / sectionSize;
                && Stored() == Truncated(old(Stored()), changed) && knownSections == Min(old(knownSections), changed)
                && cascadedHead == Min(old(cascadedHead), changed * sectionSize)
      ensures !reorg ==>
                && Stored() == old(Stored()) && cascadedHead == old(cascadedHead)
                && knownSections == Max(old(knownSections), Confirmed(head, confirmsReq, sectionSize))
      ensures forall s: nat :: s < knownSections <==> IsKnown(s, old(knownSections), head, reorg, confirmsReq, sectionSize)
      ensures reorg ==> forall s: nat :: EndsBefore(s, sectionSize, head) && s < old(storedSections) <==> s < storedSections
      ensures (work.Picked? || work.Busy?) && old(knownSections) > work.section ==>
                (knownSections > work.section <==> !reorg || EndsBefore(work.section, sectionSize, head))
    {
      hide Good, Working, InOrder, Without, IsKnown, EndsBefore;
      forall s: nat ensures s < head / sectionSize <==> EndsBefore(s, sectionSize, head) {
        Whole(s, sectionSize, head);
      }
      OnNewHead(head, reorg);
      if note.Some? {
        TakeBack();
      }
    }

    /** What a notification does once it has found sections to take back. */
    method TakeBack()
      requires Valid() && note.Some? && note.value.phase == Waiting
      requires note.value.target < storedSections && !work.Clearing?
      modifies this`db, this`storedSections, this`writes, this`note, this`cascadedHead
      ensures Quiet() && old(writes) <= writes
      ensures Stored() == Truncated(old(Stored()), old(note.value.target))
      ensures forall s :: s in db.heads <==> s in old(db.heads) && !(old(note.value.target) <= s < old(storedSections))
      ensures forall s :: s in db.heads ==> db.heads[s] == old(db.heads)[s]
      ensures cascadedHead == Min(old(cascadedHead), old(note.value.target) * sectionSize)
    {
      hide Good, Working, Without;
      ghost var target, n, heads := note.value.target, storedSections, db.heads;
      OnNoteStep();
      NoneWithout(heads, n);
      while storedSections > note.value.target
        invariant Valid() && old(writes) <= writes && note == Some(Call(target, Deleting)) && db.count == target
        invariant target <= storedSections <= n && db.heads == Without(heads, storedSections, n)
        invariant cascadedHead == old(cascadedHead)
      {
        OneMoreWithout(heads, storedSections, n);
        OnNoteStep();
      }
      OnNoteStep();
      LeftWithout(heads, target, n);
    }

    /** A reset that fails, from beginning to end: nothing is stored any more. */
    method DropAll()
      requires Quiet() && work.Picked?
      modifies this`db, this`storedSections, this`writes, this`work
      ensures Quiet() && old(writes) <= writes && Stored() == Truncated(old(Stored()), 0) && work == Failed
      ensures storedSections == 0 && db.count == 0
      ensures forall s :: s in db.heads <==> s in old(db.heads) && s >= old(storedSections)
    {
      hide Good, Working, Without;
      ghost var n, heads := storedSections, db.heads;
      OnReset(false);
      OnResetStep();
      NoneWithout(heads, n);
      while storedSections > 0
        invariant Valid() && old(writes) <= writes && note == None && work == Clearing(Call(0, Deleting))
        invariant db.count == 0 && storedSections <= n && db.heads == Without(heads, storedSections, n)
      {
        OneMoreWithout(heads, storedSections, n);
        OnResetStep();
      }
      OnResetStep();
      LeftWithout(heads, 0, n);
    }

    /** Any sequence of whole notifications and whole resets with the steps of section processing:
        the database is good after every single write. */
    method RunAlone(steps: seq<Step>)
      requires Quiet()
      modifies this
      ensures Quiet() && old(writes) <= writes
      ensures forall d :: d in writes ==> Good(parentOf, sectionSize, d)
      ensures Seen() == Turned(Rules(), old(Seen()), steps)
    {
      hide Good, Working, InOrder, Turn;
      ghost var start := Seen();
      assert steps[..0] == [];
      for i := 0 to |steps|
        invariant Quiet() && old(writes) <= writes
        invariant Seen() == Turned(Rules(), start, steps[..i])
      {
        TakeStep(steps[i]);
        TurnedStep(Rules(), start, steps, i);
      }
      assert steps[..|steps|] == steps;
    }

    method TakeStep(step: Step)
      requires Quiet()
      modifies this
      ensures Quiet() && old(writes) <= writes
      ensures Seen() == Turn(Rules(), old(Seen()), step)
    {
      hide Good, Working, InOrder;
      match step {
        case Notification(head, reorg) => Notify(head, reorg);
        case Pick => OnPickUp();
        case WholeReset(ok) =>
          if work.Picked? && !ok {
            DropAll();
          } else {
            OnReset(ok);
          }
        case ReadBlock(hash, found) => OnRead(hash, found);
        case FinishSection(commitOk) => OnFinish(commitOk);
      }
    }
  }

  /** Such a run: a reorganisation inside the section being processed lowers the known count but
      does not stop the section. */
  method KnownFallsBehind() returns (indexer: Indexer)
    ensures indexer.Quiet() && indexer.storedSections > indexer.knownSections
  {
    hide Good, Working, Reaches;
    var parentOf := (h: Hash) => if h == 0 then 0 else h - 1;
    EmptyIsGood(parentOf, 1, map[]);
    indexer := new Indexer(parentOf, 1, 0, Db(0, map[]));
    indexer.Notify(0, false);
    indexer.OnPickUp();
    indexer.OnReset(true);
    indexer.Notify(0, true);
    indexer.OnRead(1, true);
    indexer.OnFinish(true);
  }

  lemma NoteMayAct(parentOf: Hash -> Hash, size: nat, s: State, work: Work, call: Call)
    requires Good(parentOf, size, s.db) && InOrder(s, work, Some(call)) && IsHarmless(s, work, call)
    ensures Good(parentOf, size, Act(s, call).db)
  {
    hide Good;
    ActKeeps(parentOf, size, s, call);
  }
}
