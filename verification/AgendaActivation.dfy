/** Concurrent `activate` calls, step by step: load the item, deactivate its siblings
    one document at a time, save the item. Calls interleave freely and may crash. */
module AgendaActivation {
  import opened Json

  datatype Item = Item(session: string, active: bool, activatedAt: Option<int>, orderIndex: int)

  type Items = map<string, Item>

  /** Where a call stands. `swept` holds the siblings its update has passed, with the time
      at which each was deactivated. */
  datatype Call =
    | Loaded(target: string, snapshot: Item)
    | Sweeping(target: string, snapshot: Item, started: nat, swept: map<string, nat>)
    | Finished(target: string)
    | NotFound
    | Crashed(target: string, swept: map<string, nat>)

  /** The deactivate-to-save window of the call that last saved an item. */
  datatype Window = Window(start: nat, end: nat)

  /** When, and by which call, an item was last deactivated. */
  datatype Mark = Mark(at: nat, caller: nat)

  /** `clock` counts steps; `saved` and `swept` remember each item's last save and last
      deactivation. */
  datatype State = State(
    items: Items, calls: map<nat, Call>, clock: nat, saved: map<string, Window>, swept: map<string, Mark>)

  datatype Step =
    | Load(id: nat, item: string)
    | Begin(id: nat)
    | Sweep(id: nat, sibling: string)
    | Save(id: nat, now: int)
    | Crash(id: nat)

  predicate IsSibling(items: Items, session: string, target: string, k: string) {
    k in items && items[k].session == session && k != target
  }

  predicate SweepDone(items: Items, c: Call)
    requires c.Sweeping?
  {
    forall k :: k in items && IsSibling(items, c.snapshot.session, c.target, k) ==> k in c.swept
  }

  /** One step; a step that is not enabled only lets time pass. The save writes the whole
      loaded document back. */
  function Next(s0: State, step: Step): State {
    var s := s0.(clock := s0.clock + 1);
    if step.Load? then
      if step.id in s.calls then s
      else s.(calls := s.calls[step.id :=
                if step.item in s.items then Loaded(step.item, s.items[step.item]) else NotFound])
    else if step.id !in s.calls then s
    else
      var c := s.calls[step.id];
      match step
      case Begin(id) =>
        if !c.Loaded? then s
        else s.(calls := s.calls[id := Sweeping(c.target, c.snapshot, s0.clock, map[])])
      case Sweep(id, k) =>
        if !c.Sweeping? || !IsSibling(s.items, c.snapshot.session, c.target, k) then s
        else
          s.(calls := s.calls[id := Sweeping(c.target, c.snapshot, c.started, c.swept[k := s0.clock])],
             items := s.items[k := s.items[k].(active := false)],
             swept := s.swept[k := Mark(s0.clock, id)])
      case Save(id, now) =>
        if !c.Sweeping? || !SweepDone(s.items, c) then s
        else
          s.(calls := s.calls[id := Finished(c.target)],
             items := s.items[c.target := c.snapshot.(active := true, activatedAt := Some(now))],
             saved := s.saved[c.target := Window(c.started, s0.clock)])
      case Crash(id) =>
        if c.Sweeping? then s.(calls := s.calls[id := Crashed(c.target, c.swept)])
        else if c.Loaded? then s.(calls := s.calls[id := Crashed(c.target, map[])])
        else s
  }

  function Run(s: State, steps: seq<Step>): State {
    if steps == [] then s else Next(Run(s, steps[..|steps| - 1]), steps[|steps| - 1])
  }

  function Initial(items: Items): State {
    State(items, map[], 0, map[], map[])
  }

  predicate Active(items: Items, k: string) {
    k in items && items[k].active
  }

  predicate Overlap(v: Window, w: Window) {
    v.start < w.end && w.start < v.end
  }

  // ---- what every step keeps ----

  /** The last write of an item, if any, was its save. */
  predicate SavedAfterSweeps(s: State, k: string) {
    k in s.saved && (k in s.swept ==> s.swept[k].at < s.saved[k].end)
  }

  predicate Untouched(s: State, k: string) {
    k !in s.saved && k !in s.swept
  }

  /** An item is active exactly when its last write was a save, or when it was active from
      the start and never written. */
  ghost predicate ItemOk(start: Items, s: State, k: string)
    requires k in start && k in s.items
  {
    && s.items[k].session == start[k].session
    && (k in s.saved ==> s.saved[k].start < s.saved[k].end < s.clock)
    && (k in s.swept ==> s.swept[k].at < s.clock)
    && (k in s.saved && k in s.swept ==> s.swept[k].at != s.saved[k].end)
    && (s.items[k].active <==> SavedAfterSweeps(s, k) || (Untouched(s, k) && start[k].active))
  }

  /** A swept sibling was last deactivated then or later. */
  ghost predicate SweepsSeen(s: State, swept: map<string, nat>) {
    forall k :: k in swept ==> k in s.swept && swept[k] <= s.swept[k].at
  }

  /** A swept sibling that is active again was saved after the sweeping call began. */
  ghost predicate CallOk(start: Items, s: State, id: nat)
    requires id in s.calls
  {
    var c := s.calls[id];
    match c
    case Loaded(t, snap) => t in start && snap.session == start[t].session
    case Sweeping(t, snap, started, swept) =>
      && t in start && snap.session == start[t].session && started < s.clock && SweepsSeen(s, swept)
      && forall k :: k in swept && Active(s.items, k) ==> k in s.saved && started < s.saved[k].end
    case Finished(t) => t in s.saved && t in start
    case NotFound => true
    case Crashed(t, swept) => t in start && SweepsSeen(s, swept)
  }

  predicate SameSession(start: Items, a: string, b: string) {
    a in start && b in start && start[a].session == start[b].session
  }

  /** The call that last deactivated an item is still under way or crashed, remembering
      that, or has saved a sibling since. */
  ghost predicate MarkOk(start: Items, s: State, k: string)
    requires k in s.swept
  {
    s.swept[k].caller in s.calls &&
    match s.calls[s.swept[k].caller]
    case Sweeping(t, _, _, swept) => SameSession(start, t, k) && k in swept && swept[k] == s.swept[k].at
    case Crashed(t, swept) => SameSession(start, t, k) && k in swept && swept[k] == s.swept[k].at
    case Finished(t) => SameSession(start, t, k) && t in s.saved && s.swept[k].at < s.saved[t].end
    case _ => false
  }

  /** Of two active items of a session, both or neither were ever saved, and the windows of
      their last saves overlap. */
  ghost predicate PairOk(s: State, a: string, b: string) {
    Active(s.items, a) && Active(s.items, b) && a != b && s.items[a].session == s.items[b].session
    && (a in s.saved || b in s.saved) ==>
      a in s.saved && b in s.saved && Overlap(s.saved[a], s.saved[b])
  }

  ghost predicate Inv(start: Items, s: State) {
    && s.items.Keys == start.Keys
    && (forall k {:trigger ItemOk(start, s, k)} :: k in start ==> ItemOk(start, s, k))
    && (forall id {:trigger CallOk(start, s, id)} :: id in s.calls ==> CallOk(start, s, id))
    && (forall k {:trigger MarkOk(start, s, k)} :: k in s.swept ==> MarkOk(start, s, k))
    && (forall a, b {:trigger PairOk(s, a, b)} :: PairOk(s, a, b))
  }

  predicate Saves(s: State, step: Step) {
    step.Save? && step.id in s.calls && s.calls[step.id].Sweeping? && SweepDone(s.items, s.calls[step.id])
  }

  predicate Sweeps(s: State, step: Step) {
    && step.Sweep? && step.id in s.calls && s.calls[step.id].Sweeping?
    && IsSibling(s.items, s.calls[step.id].snapshot.session, s.calls[step.id].target, step.sibling)
  }

  /** What a step does to the items, their saves and their marks. */
  lemma StepEffect(s: State, step: Step)
    ensures var t := Next(s, step);
      && t.clock == s.clock + 1
      && (Saves(s, step) ==>
            var c := s.calls[step.id];
            && t.items == s.items[c.target := c.snapshot.(active := true, activatedAt := Some(step.now))]
            && t.saved == s.saved[c.target := Window(c.started, s.clock)] && t.swept == s.swept
            && t.calls == s.calls[step.id := Finished(c.target)])
      && (Sweeps(s, step) ==>
            var c := s.calls[step.id];
            && t.items == s.items[step.sibling := s.items[step.sibling].(active := false)]
            && t.saved == s.saved && t.swept == s.swept[step.sibling := Mark(s.clock, step.id)]
            && t.calls == s.calls[step.id := Sweeping(c.target, c.snapshot, c.started, c.swept[step.sibling := s.clock])])
      && (!Saves(s, step) && !Sweeps(s, step) ==> t.items == s.items && t.saved == s.saved && t.swept == s.swept)
  {
  }

  lemma NextKeepsItems(start: Items, s: State, step: Step)
    requires Inv(start, s)
    ensures Next(s, step).items.Keys == start.Keys
    ensures forall k :: k in start ==> ItemOk(start, Next(s, step), k)
  {
    var t := Next(s, step);
    StepEffect(s, step);
    assert step.id in s.calls ==> CallOk(start, s, step.id);
    hide Next;
    forall k | k in start
      ensures k in t.items && ItemOk(start, t, k)
    {
      assert ItemOk(start, s, k);
    }
  }

  /** Calls other than the acting one stay as they are. */
  lemma OtherCallsStay(s: State, step: Step, id: nat)
    requires id in Next(s, step).calls && id != step.id
    ensures id in s.calls && Next(s, step).calls[id] == s.calls[id]
  {
  }

  lemma OtherCallOk(start: Items, s: State, step: Step, id: nat)
    requires Inv(start, s) && id in Next(s, step).calls && id != step.id
    ensures CallOk(start, Next(s, step), id)
  {
    OtherCallsStay(s, step, id);
    StepEffect(s, step);
    hide Next;
    assert CallOk(start, s, id);
    var t := Next(s, step);
    var c := s.calls[id];
    if c.Sweeping? || c.Crashed? {
      forall k | k in c.swept
        ensures k in t.swept && c.swept[k] <= t.swept[k].at
      {
        assert MarkOk(start, s, k) && ItemOk(start, s, k);
      }
    }
  }

  lemma ActingCallOk(start: Items, s: State, step: Step)
    requires Inv(start, s) && step.id in Next(s, step).calls
    ensures CallOk(start, Next(s, step), step.id)
  {
    StepEffect(s, step);
    assert step.id in s.calls ==> CallOk(start, s, step.id);
    if step.Load? && step.item in start {
      assert ItemOk(start, s, step.item);
    }
  }

  lemma NextKeepsCalls(start: Items, s: State, step: Step)
    requires Inv(start, s)
    ensures forall id :: id in Next(s, step).calls ==> CallOk(start, Next(s, step), id)
  {
    forall id | id in Next(s, step).calls
      ensures CallOk(start, Next(s, step), id)
    {
      if id == step.id {
        ActingCallOk(start, s, step);
      } else {
        OtherCallOk(start, s, step, id);
      }
    }
  }

  lemma NextKeepsMark(start: Items, s: State, step: Step, k: string)
    requires Inv(start, s) && k in Next(s, step).swept
    ensures MarkOk(start, Next(s, step), k)
  {
    StepEffect(s, step);
    var t := Next(s, step);
    assert step.id in s.calls ==> CallOk(start, s, step.id);
    if Sweeps(s, step) && k == step.sibling {
      assert ItemOk(start, s, k);
    } else {
      assert MarkOk(start, s, k);
      assert ItemOk(start, s, k);
      var caller := s.swept[k].caller;
      assert Saves(s, step) ==> t.saved[s.calls[step.id].target].end == s.clock;
      if s.calls[caller].Finished? {
        assert ItemOk(start, s, s.calls[caller].target);
      }
    }
  }

  /** A save leaves its target active together only with items saved in an overlapping window. */
  lemma SavePairsUp(start: Items, s: State, step: Step, b: string)
    requires Inv(start, s) && Saves(s, step) && b != s.calls[step.id].target
    ensures var t := Next(s, step); var a := s.calls[step.id].target;
      a in t.items && (Active(t.items, b) && t.items[b].session == t.items[a].session ==>
        a in t.saved && b in t.saved && Overlap(t.saved[a], t.saved[b]))
  {
    StepEffect(s, step);
    hide Next;
    assert CallOk(start, s, step.id);
    var c := s.calls[step.id];
    assert ItemOk(start, s, c.target);
    if Active(s.items, b) && s.items[b].session == c.snapshot.session {
      assert ItemOk(start, s, b);
      assert b in c.swept;
    }
  }

  lemma NextKeepsPairs(start: Items, s: State, step: Step, a: string, b: string)
    requires Inv(start, s)
    ensures PairOk(Next(s, step), a, b)
  {
    assert PairOk(s, a, b);
    StepEffect(s, step);
    hide Next;
    if Saves(s, step) {
      var target := s.calls[step.id].target;
      if a == target && a != b {
        SavePairsUp(start, s, step, b);
      } else if b == target && a != b {
        SavePairsUp(start, s, step, a);
      }
    }
  }

  lemma NextKeepsInv(start: Items, s: State, step: Step)
    requires Inv(start, s)
    ensures Inv(start, Next(s, step))
  {
    NextKeepsItems(start, s, step);
    NextKeepsCalls(start, s, step);
    hide Next;
    forall k | k in Next(s, step).swept
      ensures MarkOk(start, Next(s, step), k)
    {
      NextKeepsMark(start, s, step, k);
    }
    forall a, b
      ensures PairOk(Next(s, step), a, b)
    {
      NextKeepsPairs(start, s, step, a, b);
    }
  }

  /** From any collection, even one that has several active items in a session. */
  lemma {:induction false} RunKeepsInv(start: Items, steps: seq<Step>)
    ensures Inv(start, Run(Initial(start), steps))
  {
    if steps == [] {
      var s := Initial(start);
      assert forall a, b :: PairOk(s, a, b);
    } else {
      RunKeepsInv(start, steps[..|steps| - 1]);
      NextKeepsInv(start, Run(Initial(start), steps[..|steps| - 1]), steps[|steps| - 1]);
    }
  }

  // ---- what the invariant says ----

  /** Main result on joint activity, from any collection: two items of a session are active
      together exactly if both were activated, the deactivate-to-save windows of their last
      activations overlapped and no deactivation came after either save; or if both were
      active at the start and neither was ever written. */
  lemma BothActiveIff(start: Items, steps: seq<Step>, a: string, b: string)
    requires SameSession(start, a, b) && a != b
    ensures var s := Run(Initial(start), steps);
      Active(s.items, a) && Active(s.items, b) <==>
      || (SavedAfterSweeps(s, a) && SavedAfterSweeps(s, b) && Overlap(s.saved[a], s.saved[b]))
      || (Untouched(s, a) && Untouched(s, b) && start[a].active && start[b].active)
  {
    var s := Run(Initial(start), steps);
    RunKeepsInv(start, steps);
    assert ItemOk(start, s, a) && ItemOk(start, s, b) && PairOk(s, a, b);
  }

  /** No call of the session is deactivating. */
  ghost predicate AtRest(s: State, session: string) {
    forall id :: id in s.calls && s.calls[id].Sweeping? && s.calls[id].target in s.items ==>
      s.items[s.calls[id].target].session != session
  }

  /** No save of the session came later than that of j. */
  ghost predicate SavedLast(s: State, j: string) {
    && j in s.saved && j in s.items
    && forall k :: k in s.saved && k in s.items && s.items[k].session == s.items[j].session ==>
         s.saved[k].end <= s.saved[j].end
  }

  /** Every crashed call that deactivated k had done so by the time t. */
  ghost predicate CrashesBefore(s: State, k: string, t: nat) {
    forall id :: id in s.calls && s.calls[id].Crashed? && k in s.calls[id].swept ==> s.calls[id].swept[k] < t
  }

  lemma MarkOfLastSaved(start: Items, s: State, j: string)
    requires Inv(start, s) && SavedLast(s, j) && j in s.swept && AtRest(s, s.items[j].session)
    requires s.saved[j].end < s.swept[j].at
    ensures !CrashesBefore(s, j, s.saved[j].end)
  {
    assert MarkOk(start, s, j) && ItemOk(start, s, j);
    var c := s.calls[s.swept[j].caller];
    assert ItemOk(start, s, c.target);
  }

  /** Main result at rest: the item of a session that was saved last is active exactly
      unless a call that crashed deactivated it after that save. */
  lemma LastSavedIsActiveIff(start: Items, steps: seq<Step>, j: string)
    requires var s := Run(Initial(start), steps); SavedLast(s, j) && AtRest(s, s.items[j].session)
    ensures var s := Run(Initial(start), steps); Active(s.items, j) <==> CrashesBefore(s, j, s.saved[j].end)
  {
    var s := Run(Initial(start), steps);
    RunKeepsInv(start, steps);
    assert ItemOk(start, s, j);
    if Active(s.items, j) {
      forall id | id in s.calls && s.calls[id].Crashed? && j in s.calls[id].swept
        ensures s.calls[id].swept[j] < s.saved[j].end
      {
        assert CallOk(start, s, id);
      }
    } else {
      MarkOfLastSaved(start, s, j);
    }
  }

  ghost predicate SomeActive(items: Items, session: string) {
    exists k :: Active(items, k) && items[k].session == session
  }

  lemma LatestSave(s: State, session: string, k: string) returns (j: string)
    requires k in s.saved && k in s.items && s.items[k].session == session
    ensures SavedLast(s, j) && s.items[j].session == session
  {
    j := k;
    var left := set x | x in s.saved && x in s.items && s.items[x].session == session;
    while left != {}
      invariant left <= s.saved.Keys * s.items.Keys
      invariant j in s.saved && j in s.items && s.items[j].session == session
      invariant forall x :: x in s.saved && x in s.items && s.items[x].session == session && x !in left ==>
        s.saved[x].end <= s.saved[j].end
      decreases left
    {
      var x :| x in left;
      left := left - {x};
      if s.saved[j].end < s.saved[x].end && s.items[x].session == session {
        j := x;
      }
    }
  }

  /** Main result on liveness: at rest, a session in which some activation was saved after
      everything that crashed calls deactivated there has an active item. */
  lemma SomethingIsActiveAtRest(start: Items, steps: seq<Step>, k: string)
    requires var s := Run(Initial(start), steps);
      && k in s.saved && k in s.items && AtRest(s, s.items[k].session)
      && forall x :: x in s.items && s.items[x].session == s.items[k].session ==> CrashesBefore(s, x, s.saved[k].end)
    ensures var s := Run(Initial(start), steps); k in s.items && SomeActive(s.items, s.items[k].session)
  {
    var s := Run(Initial(start), steps);
    var j := LatestSave(s, s.items[k].session, k);
    assert CrashesBefore(s, j, s.saved[k].end) && s.saved[k].end <= s.saved[j].end;
    LastSavedIsActiveIff(start, steps, j);
  }

  // ---- the claimed convergence to one winner ----

  lemma {:induction false} RunConcat(s: State, xs: seq<Step>, ys: seq<Step>)
    ensures Run(s, xs + ys) == Run(Run(s, xs), ys)
    decreases |ys|
  {
    hide Next;
    if ys == [] {
      assert xs + ys == xs;
    } else {
      var m := |ys| - 1;
      RunConcat(s, xs, ys[..m]);
      assert (xs + ys)[..|xs| + m] == xs + ys[..m];
    }
  }

  lemma RunTwo(s: State, x: Step, y: Step)
    ensures Run(s, [x, y]) == Next(Next(s, x), y)
  {
    hide Next;
    assert [x, y][..1] == [x];
    assert Run(s, [x]) == Next(Run(s, [x][..0]), x);
    assert [x][..0] == [];
  }

  /** Call `id` is deactivating on behalf of `target`, and the items are those of the start
      but for their activity. */
  ghost predicate UnderWay(items: Items, s: State, id: nat, target: string, done: set<string>) {
    && target in items
    && id in s.calls && s.calls[id].Sweeping? && s.calls[id].target == target
    && s.calls[id].snapshot == items[target] && s.calls[id].swept.Keys == done
    && s.items.Keys == items.Keys && forall k :: k in items ==> s.items[k].session == items[k].session
  }

  lemma BothBegin(items: Items, a: string, b: string)
    requires a in items && b in items
    ensures var t := Run(Initial(items), [Load(0, a), Load(1, b)] + [Begin(0), Begin(1)]);
      UnderWay(items, t, 0, a, {}) && UnderWay(items, t, 1, b, {}) && t.calls.Keys == {0, 1}
  {
    var s0 := Initial(items);
    RunConcat(s0, [Load(0, a), Load(1, b)], [Begin(0), Begin(1)]);
    RunTwo(s0, Load(0, a), Load(1, b));
    var s2 := Next(Next(s0, Load(0, a)), Load(1, b));
    RunTwo(s2, Begin(0), Begin(1));
    assert s2.calls == map[0 := Loaded(a, items[a]), 1 := Loaded(b, items[b])] && s2.items == items;
  }

  function Siblings(items: Items, target: string): set<string>
    requires target in items
  {
    set k | k in items && IsSibling(items, items[target].session, target, k)
  }

  lemma SweepOne(items: Items, s: State, id: nat, a: string, done: set<string>,
                 other: nat, b: string, more: set<string>, k: string)
    requires UnderWay(items, s, id, a, done) && UnderWay(items, s, other, b, more)
    requires id != other && k in Siblings(items, a) && s.calls.Keys == {id, other}
    ensures var t := Next(s, Sweep(id, k));
      && UnderWay(items, t, id, a, done + {k}) && UnderWay(items, t, other, b, more)
      && t.calls.Keys == {id, other}
  {
    StepEffect(s, Sweep(id, k));
    assert Sweeps(s, Sweep(id, k));
  }

  /** A call passes its siblings one by one, whatever the other call has done. */
  lemma {:induction false} SweepAll(items: Items, s: State, id: nat, a: string, done: set<string>,
                                    other: nat, b: string, more: set<string>, left: set<string>)
      returns (steps: seq<Step>)
    requires UnderWay(items, s, id, a, done) && UnderWay(items, s, other, b, more)
    requires id != other && left <= Siblings(items, a) && s.calls.Keys == {id, other}
    ensures var t := Run(s, steps);
      && UnderWay(items, t, id, a, done + left) && UnderWay(items, t, other, b, more)
      && t.calls.Keys == {id, other}
    decreases left
  {
    if left == {} {
      steps := [];
      assert done + left == done;
    } else {
      var k :| k in left;
      var t := Next(s, Sweep(id, k));
      SweepOne(items, s, id, a, done, other, b, more, k);
      hide Next, UnderWay;
      steps := SweepAll(items, t, id, a, done + {k}, other, b, more, left - {k});
      assert done + {k} + (left - {k}) == done + left;
      RunConcat(s, [Sweep(id, k)], steps);
      assert Run(s, [Sweep(id, k)]) == t by {
        assert [Sweep(id, k)][..0] == [];
      }
      steps := [Sweep(id, k)] + steps;
    }
  }

  lemma SaveOne(items: Items, s: State, id: nat, a: string)
    requires a in items && UnderWay(items, s, id, a, Siblings(items, a))
    ensures var t := Next(s, Save(id, 0));
      && t.calls == s.calls[id := Finished(a)] && t.items.Keys == items.Keys && Active(t.items, a)
      && (forall k :: k in items && k != a ==> k in s.items && t.items[k] == s.items[k])
      && forall k :: k in items ==> t.items[k].session == items[k].session
  {
    StepEffect(s, Save(id, 0));
    hide Next;
    assert Saves(s, Save(id, 0));
  }

  lemma StillUnderWay(items: Items, s: State, t: State, id: nat, a: string, done: set<string>)
    requires UnderWay(items, s, id, a, done) && id in t.calls && t.calls[id] == s.calls[id]
    requires t.items.Keys == items.Keys && forall k :: k in items ==> t.items[k].session == items[k].session
    ensures UnderWay(items, t, id, a, done)
  {
  }

  lemma BothSave(items: Items, s: State, a: string, b: string)
    requires a != b && SameSession(items, a, b) && s.calls.Keys == {0, 1}
    requires UnderWay(items, s, 0, a, Siblings(items, a)) && UnderWay(items, s, 1, b, Siblings(items, b))
    ensures var t := Run(s, [Save(0, 0), Save(1, 0)]);
      && Active(t.items, a) && Active(t.items, b)
      && t.calls.Keys == {0, 1} && t.calls[0] == Finished(a) && t.calls[1] == Finished(b)
  {
    hide Next, Siblings;
    RunTwo(s, Save(0, 0), Save(1, 0));
    SaveOne(items, s, 0, a);
    var t := Next(s, Save(0, 0));
    StillUnderWay(items, s, t, 1, b, Siblings(items, b));
    hide UnderWay;
    SaveOne(items, t, 1, b);
  }

  /** The claimed convergence fails in every session with two items: of any two of them,
      two overlapping activations can both finish and leave both items active. */
  lemma TwoWinners(items: Items, a: string, b: string) returns (steps: seq<Step>)
    requires a != b && SameSession(items, a, b)
    ensures var s := Run(Initial(items), steps);
      && Active(s.items, a) && Active(s.items, b) && AtRest(s, items[a].session)
      && s.calls.Keys == {0, 1} && s.calls[0] == Finished(a) && s.calls[1] == Finished(b)
  {
    hide Next, UnderWay;
    var begin := [Load(0, a), Load(1, b)] + [Begin(0), Begin(1)];
    BothBegin(items, a, b);
    var s1 := Run(Initial(items), begin);
    var first := SweepAll(items, s1, 0, a, {}, 1, b, {}, Siblings(items, a));
    assert {} + Siblings(items, a) == Siblings(items, a) && {} + Siblings(items, b) == Siblings(items, b);
    var s2 := Run(s1, first);
    var second := SweepAll(items, s2, 1, b, {}, 0, a, Siblings(items, a), Siblings(items, b));
    var s3 := Run(s2, second);
    BothSave(items, s3, a, b);
    RunConcat(Initial(items), begin, first);
    RunConcat(Initial(items), begin + first, second);
    RunConcat(Initial(items), begin + first + second, [Save(0, 0), Save(1, 0)]);
    steps := begin + first + second + [Save(0, 0), Save(1, 0)];
  }
}
