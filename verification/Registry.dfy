/** The profile registry under concurrent updates (`ProfileRegistry::modify`
    in `src/config/profile.rs`, Unix branch): an exclusive lock, a load, a
    temporary file, a rename. */
module Registry {
  import opened Text

  datatype ProfileEntry = ProfileEntry(
    name: string, description: Option<string>, createdAt: string, lastUsed: Option<string>)

  type Profiles = map<string, ProfileEntry>

  // ----- the updates the program makes ---------------------------------------------

  function Registered(reg: Profiles, name: string, description: Option<string>, now: string): Profiles {
    reg[name := ProfileEntry(name, description, now, None)]
  }

  function Touched(reg: Profiles, name: string, now: string): Profiles {
    if name in reg then reg[name := reg[name].(lastUsed := Some(now))] else reg
  }

  class ProfileRegistry {
    var profiles: Profiles

    constructor ()
      ensures profiles == map[]
    {
      profiles := map[];
    }

    method Register(name: string, description: Option<string>, now: string)
      modifies this
      ensures profiles == Registered(old(profiles), name, description, now)
    {
      profiles := profiles[name := ProfileEntry(name, description, now, None)];
    }

    method Touch(name: string, now: string)
      modifies this
      ensures profiles == Touched(old(profiles), name, now)
    {
      if name in profiles {
        var entry := profiles[name];
        profiles := profiles[name := entry.(lastUsed := Some(now))];
      }
    }
  }

  // ----- the protocol -----------------------------------------------------------------

  /** A file as a reader finds it: absent, cut short in the middle of a write,
      or a complete registry. */
  datatype Contents = Absent | Partial | Complete(reg: Profiles)

  /** Where a `modify` call stands. The closure is any function. */
  datatype Phase =
    | Waiting
    | Locked
    | Loaded(reg: Profiles)
    | Writing(reg: Profiles)
    | Written(reg: Profiles)
    | Renamed

  datatype Call = Call(update: Profiles -> Profiles, phase: Phase)

  /** The registry file, the one temporary file all callers share, the holder
      of the advisory lock, and the calls in progress. */
  datatype State = State(file: Contents, tmp: Contents, holder: int, calls: map<nat, Call>)

  /** No call holds the lock. */
  const FREE := -1

  datatype Step =
    | Begin(id: nat, update: Profiles -> Profiles)
    | TakeLock(id: nat)
    | Load(id: nat)
    | OpenTemp(id: nat)
    | FinishTemp(id: nat)
    | Rename(id: nat)
    | Unlock(id: nat)
    /** The process dies, or the call returns early with an error; either way
        its lock goes with it and its files stay. */
    | Stop(id: nat)

  /** What a load returns: the empty registry if there is no file yet. */
  ghost predicate Loadable(c: Contents) {
    !c.Partial?
  }

  ghost function LoadedFrom(c: Contents): Profiles
    requires Loadable(c)
  {
    if c.Absent? then map[] else c.reg
  }

  ghost predicate Enabled(s: State, step: Step) {
    match step
    case Begin(id, _) => id !in s.calls
    case TakeLock(id) => id in s.calls && s.calls[id].phase.Waiting? && s.holder == FREE
    case Load(id) => id in s.calls && s.calls[id].phase.Locked? && Loadable(s.file)
    case OpenTemp(id) => id in s.calls && s.calls[id].phase.Loaded?
    case FinishTemp(id) => id in s.calls && s.calls[id].phase.Writing?
    case Rename(id) => id in s.calls && s.calls[id].phase.Written?
    case Unlock(id) => id in s.calls && s.calls[id].phase.Renamed?
    case Stop(id) => id in s.calls
  }

  ghost function Moved(s: State, id: nat, phase: Phase): State
    requires id in s.calls
  {
    s.(calls := s.calls[id := s.calls[id].(phase := phase)])
  }

  ghost function Dropped(s: State, id: nat): State {
    s.(calls := s.calls - {id}, holder := if s.holder == id then FREE else s.holder)
  }

  ghost function Next(s: State, step: Step): State
    requires Enabled(s, step)
  {
    match step
    case Begin(id, update) => s.(calls := s.calls[id := Call(update, Waiting)])
    case TakeLock(id) => Moved(s, id, Locked).(holder := id)
    case Load(id) => Moved(s, id, Loaded(s.calls[id].update(LoadedFrom(s.file))))
    case OpenTemp(id) => Moved(s, id, Writing(s.calls[id].phase.reg)).(tmp := Partial)
    case FinishTemp(id) =>
      Moved(s, id, Written(s.calls[id].phase.reg)).(tmp := Complete(s.calls[id].phase.reg))
    case Rename(id) => Moved(s, id, Renamed).(file := s.tmp, tmp := Absent)
    case Unlock(id) => Dropped(s, id)
    case Stop(id) => Dropped(s, id)
  }

  ghost predicate Run(s: State, steps: seq<Step>, t: State)
    decreases |steps|
  {
    if steps == [] then s == t
    else Enabled(s, steps[0]) && Run(Next(s, steps[0]), steps[1..], t)
  }

  /** The closures whose rename happened in a run, in the order they got in. */
  ghost function Renames(s: State, steps: seq<Step>): seq<Profiles -> Profiles>
    decreases |steps|
  {
    if steps == [] || !Enabled(s, steps[0]) then []
    else
      (if steps[0].Rename? then [s.calls[steps[0].id].update] else [])
      + Renames(Next(s, steps[0]), steps[1..])
  }

  ghost function ApplyAll(reg: Profiles, updates: seq<Profiles -> Profiles>): Profiles
    decreases |updates|
  {
    if updates == [] then reg else ApplyAll(updates[0](reg), updates[1..])
  }

  // ----- the invariant -----------------------------------------------------------------

  /** Past the lock and before the unlock. */
  predicate Inside(p: Phase) {
    !p.Waiting?
  }

  /** Only the holder is inside; it has computed its update from the file as it
      is, and the temporary file is its own once it writes. */
  ghost predicate Invariant(s: State) {
    && Loadable(s.file)
    && (forall id :: id in s.calls && Inside(s.calls[id].phase) ==> s.holder == id)
    && (s.holder != FREE ==> s.holder >= 0 && s.holder in s.calls && Inside(s.calls[s.holder].phase))
    && (forall id :: id in s.calls ==> Consistent(s, s.calls[id]))
  }

  ghost predicate Consistent(s: State, c: Call)
    requires Loadable(s.file)
  {
    match c.phase
    case Loaded(reg) => reg == c.update(LoadedFrom(s.file))
    case Writing(reg) => reg == c.update(LoadedFrom(s.file))
    case Written(reg) => reg == c.update(LoadedFrom(s.file)) && s.tmp == Complete(reg)
    case Waiting => true
    case Locked => true
    case Renamed => true
  }

  lemma InvariantNext(s: State, step: Step)
    requires Invariant(s) && Enabled(s, step)
    ensures var t := Next(s, step);
            && Invariant(t)
            && LoadedFrom(t.file) == (if step.Rename? then s.calls[step.id].update(LoadedFrom(s.file))
                                      else LoadedFrom(s.file))
            && (!step.Rename? ==> t.file == s.file)
  {
  }

  /** Every interleaving: the file holds the updates of all completed renames,
      applied one after the other in the order of the renames. */
  lemma {:induction false} FileIsAllRenames(s: State, steps: seq<Step>, t: State)
    requires Invariant(s) && Run(s, steps, t)
    ensures Invariant(t)
    ensures LoadedFrom(t.file) == ApplyAll(LoadedFrom(s.file), Renames(s, steps))
    decreases |steps|
  {
    if steps != [] {
      InvariantNext(s, steps[0]);
      hide Invariant, Next, Enabled;
      var u := Next(s, steps[0]);
      FileIsAllRenames(u, steps[1..], t);
      var later := Renames(u, steps[1..]);
      if steps[0].Rename? {
        assert ([s.calls[steps[0].id].update] + later)[1..] == later;
      } else {
        assert [] + later == later;
      }
    }
  }

  const START := State(Absent, Absent, FREE, map[])

  /** No update is lost: from a fresh start, after any number of calls in any
      interleaving, with crashes and errors at any point, a reader finds no
      file or a complete registry, and it is exactly the updates of the
      completed renames, in order. */
  lemma NoUpdateIsLost(steps: seq<Step>, t: State)
    requires Run(START, steps, t)
    ensures !t.file.Partial?
    ensures LoadedFrom(t.file) == ApplyAll(map[], Renames(START, steps))
  {
    FileIsAllRenames(START, steps, t);
  }

  // ----- in the order of the locks ------------------------------------------------------

  /** The call renames before it stops or unlocks. */
  predicate WillRename(steps: seq<Step>, id: nat) {
    if steps == [] then false
    else
      match steps[0]
      case Rename(i) => i == id || WillRename(steps[1..], id)
      case Unlock(i) => i != id && WillRename(steps[1..], id)
      case Stop(i) => i != id && WillRename(steps[1..], id)
      case _ => WillRename(steps[1..], id)
  }

  /** The closures of the calls that take the lock in a run and then rename, in
      the order in which they take it. */
  ghost function InLockOrder(s: State, steps: seq<Step>): seq<Profiles -> Profiles>
    decreases |steps|
  {
    if steps == [] || !Enabled(s, steps[0]) then []
    else
      (if steps[0].TakeLock? && WillRename(steps[1..], steps[0].id) then [s.calls[steps[0].id].update] else [])
      + InLockOrder(Next(s, steps[0]), steps[1..])
  }

  /** The call that has the lock already, if its rename is still to come. */
  ghost function Pending(s: State, steps: seq<Step>): seq<Profiles -> Profiles> {
    if s.holder >= 0 && s.holder in s.calls && !s.calls[s.holder].phase.Renamed? && WillRename(steps, s.holder)
    then [s.calls[s.holder].update]
    else []
  }

  lemma {:induction false} RenamesFromHere(s: State, steps: seq<Step>, t: State)
    requires Invariant(s) && Run(s, steps, t)
    ensures Renames(s, steps) == Pending(s, steps) + InLockOrder(s, steps)
    decreases |steps|
  {
    if steps != [] {
      InvariantNext(s, steps[0]);
      RenamesFromHere(Next(s, steps[0]), steps[1..], t);
      PendingStep(s, steps);
    }
  }

  lemma PendingStep(s: State, steps: seq<Step>)
    requires Invariant(s) && steps != [] && Enabled(s, steps[0])
    ensures var step := steps[0];
            (if step.Rename? then [s.calls[step.id].update] else []) + Pending(Next(s, step), steps[1..])
            == Pending(s, steps)
               + (if step.TakeLock? && WillRename(steps[1..], step.id) then [s.calls[step.id].update] else [])
  {
  }

  /** The completed renames happen in the order in which their calls took the
      lock. */
  lemma RenamesInLockOrder(steps: seq<Step>, t: State)
    requires Run(START, steps, t)
    ensures Renames(START, steps) == InLockOrder(START, steps)
  {
    RenamesFromHere(START, steps, t);
    assert [] + InLockOrder(START, steps) == InLockOrder(START, steps);
  }

  // ----- the closures of the program ----------------------------------------------------------

  /** What the program does to the registry: a profile is created, imported if it is
      not there, used, or deleted. */
  datatype Change =
    | Register(name: string, description: Option<string>, now: string)
    | Import(name: string, now: string)
    | Touch(name: string, now: string)
    | Remove(name: string)

  const IMPORTED: string := "Imported profile"

  function Changed(reg: Profiles, c: Change): Profiles {
    match c
    case Register(name, description, now) => Registered(reg, name, description, now)
    case Import(name, now) => if name in reg then reg else Registered(reg, name, Some(IMPORTED), now)
    case Touch(name, now) => Touched(reg, name, now)
    case Remove(name) => reg - {name}
  }

  function ChangedBy(changes: seq<Change>): Profiles {
    if changes == [] then map[] else Changed(ChangedBy(changes[..|changes| - 1]), changes[|changes| - 1])
  }

  predicate Makes(c: Change, name: string) {
    c.name == name && (c.Register? || c.Import?)
  }

  /** Before the `k`-th change the profile is not there: each change that made it
      was followed by its deletion. */
  ghost predicate AbsentAt(changes: seq<Change>, k: nat, name: string)
    requires k <= |changes|
  {
    forall j :: 0 <= j < k && Makes(changes[j], name) ==> exists m :: j < m < k && changes[m] == Remove(name)
  }

  /** The `k`-th change made the profile as it is after all of them. */
  ghost predicate MadeAt(changes: seq<Change>, k: nat, name: string) {
    && k < |changes| && Makes(changes[k], name)
    && (changes[k].Import? ==> AbsentAt(changes, k, name))
    && forall j :: k < j < |changes| ==>
         changes[j] != Remove(name) && !(changes[j].Register? && changes[j].name == name)
  }

  /** The last use of the profile since then is the `j`-th change. */
  ghost predicate LastUse(changes: seq<Change>, k: nat, j: nat, name: string) {
    && k < j < |changes| && changes[j].Touch? && changes[j].name == name
    && forall m :: j < m < |changes| ==> !(changes[m].Touch? && changes[m].name == name)
  }

  ghost predicate NoUse(changes: seq<Change>, k: nat, name: string) {
    forall m :: k < m < |changes| ==> !(changes[m].Touch? && changes[m].name == name)
  }

  /** The entry of the profile: as the change that made it says, with its last use
      since then. */
  ghost predicate IsEntry(e: ProfileEntry, changes: seq<Change>, k: nat, name: string)
    requires MadeAt(changes, k, name)
  {
    && e.name == name && e.createdAt == changes[k].now
    && e.description == (if changes[k].Register? then changes[k].description else Some(IMPORTED))
    && (e.lastUsed == None <==> NoUse(changes, k, name))
    && forall j: nat :: LastUse(changes, k, j, name) ==> e.lastUsed == Some(changes[j].now)
  }

  lemma {:induction false} PresentIff(changes: seq<Change>, name: string)
    ensures name in ChangedBy(changes) <==> !AbsentAt(changes, |changes|, name)
  {
    if changes != [] {
      var front, last := changes[..|changes| - 1], changes[|changes| - 1];
      PresentIff(front, name);
      AbsentStep(changes, name);
    }
  }

  lemma AbsentStep(changes: seq<Change>, name: string)
    requires changes != []
    ensures var front, last := changes[..|changes| - 1], changes[|changes| - 1];
            AbsentAt(changes, |changes|, name) <==>
            last == Remove(name) || (!Makes(last, name) && AbsentAt(front, |front|, name))
  {
    var front, last, n := changes[..|changes| - 1], changes[|changes| - 1], |changes| - 1;
    if AbsentAt(front, n, name) && !Makes(last, name) {
      forall j | 0 <= j < |changes| && Makes(changes[j], name)
        ensures exists m :: j < m < |changes| && changes[m] == Remove(name)
      {
        assert Makes(front[j], name);
        var m :| j < m < n && front[m] == Remove(name);
        assert changes[m] == Remove(name);
      }
    }
    if AbsentAt(changes, |changes|, name) && last != Remove(name) {
      forall j | 0 <= j < n && Makes(front[j], name)
        ensures exists m :: j < m < n && front[m] == Remove(name)
      {
        assert Makes(changes[j], name);
        var m :| j < m < |changes| && changes[m] == Remove(name);
        assert front[m] == Remove(name);
      }
    }
    if last == Remove(name) {
      assert changes[n] == Remove(name);
    }
  }

  /** Which change made a profile that is there. */
  lemma {:induction false} MadeIff(changes: seq<Change>, name: string)
    ensures name in ChangedBy(changes) <==> exists k: nat :: MadeAt(changes, k, name)
    ensures forall k: nat :: MadeAt(changes, k, name) ==> IsEntry(ChangedBy(changes)[name], changes, k, name)
  {
    if changes != [] {
      var front, last := changes[..|changes| - 1], changes[|changes| - 1];
      MadeIff(front, name);
      PresentIff(front, name);
      hide ChangedBy;
      assert ChangedBy(changes) == Changed(ChangedBy(front), last) by {
        LastChange(changes);
      }
      MadeStep(changes, name);
      forall k: nat | MadeAt(changes, k, name)
        ensures name in ChangedBy(changes) && IsEntry(ChangedBy(changes)[name], changes, k, name)
      {
        EntryStep(changes, k, name, ChangedBy(front));
      }
    }
  }

  lemma LastChange(changes: seq<Change>)
    requires changes != []
    ensures ChangedBy(changes) == Changed(ChangedBy(changes[..|changes| - 1]), changes[|changes| - 1])
  {
  }

  lemma AbsentFront(changes: seq<Change>, k: nat, name: string)
    requires changes != [] && k < |changes|
    ensures AbsentAt(changes, k, name) <==> AbsentAt(changes[..|changes| - 1], k, name)
  {
    var front := changes[..|changes| - 1];
    assert forall j :: 0 <= j < k ==> front[j] == changes[j];
  }

  lemma MadeStep(changes: seq<Change>, name: string)
    requires changes != []
    ensures var front, last := changes[..|changes| - 1], changes[|changes| - 1];
            forall k: nat :: MadeAt(changes, k, name) <==>
              if k == |front| then Makes(last, name) && (last.Import? ==> AbsentAt(front, k, name))
              else MadeAt(front, k, name) && last != Remove(name) && !(last.Register? && last.name == name)
  {
    hide AbsentAt;
    var front, n := changes[..|changes| - 1], |changes| - 1;
    forall k: nat | k < |changes|
      ensures AbsentAt(changes, k, name) <==> AbsentAt(front, k, name)
    {
      AbsentFront(changes, k, name);
    }
    assert forall j :: 0 <= j < n ==> front[j] == changes[j];
  }

  lemma EntryStep(changes: seq<Change>, k: nat, name: string, before: Profiles)
    requires changes != [] && MadeAt(changes, k, name)
    requires var front := changes[..|changes| - 1];
             && (MadeAt(front, k, name) ==> name in before && IsEntry(before[name], front, k, name))
             && (name in before <==> !AbsentAt(front, |front|, name))
    ensures var after := Changed(before, changes[|changes| - 1]);
            name in after && IsEntry(after[name], changes, k, name)
  {
    hide AbsentAt;
    var front, last, n := changes[..|changes| - 1], changes[|changes| - 1], |changes| - 1;
    MadeStep(changes, name);
    UseStep(changes, k, name);
    if k == n {
      AbsentFront(changes, k, name);
    }
  }

  lemma UseStep(changes: seq<Change>, k: nat, name: string)
    requires changes != []
    ensures var front, last := changes[..|changes| - 1], changes[|changes| - 1];
            var used := last.Touch? && last.name == name && k < |front|;
            && (NoUse(changes, k, name) <==> !used && NoUse(front, k, name))
            && forall j: nat :: LastUse(changes, k, j, name) <==>
                 if used then j == |front| else LastUse(front, k, j, name)
  {
    var front, last, n := changes[..|changes| - 1], changes[|changes| - 1], |changes| - 1;
    assert forall j :: 0 <= j < n ==> front[j] == changes[j];
  }

  lemma {:induction false} AppliedIs(updates: seq<Profiles -> Profiles>, changes: seq<Change>)
    requires |updates| == |changes| && forall j, r :: 0 <= j < |updates| ==> updates[j](r) == Changed(r, changes[j])
    ensures ApplyAll(map[], updates) == ChangedBy(changes)
  {
    hide Changed;
    if updates != [] {
      var n := |updates| - 1;
      AppliedIs(updates[..n], changes[..n]);
      ApplyLast(map[], updates);
    }
  }

  lemma {:induction false} ApplyLast(reg: Profiles, updates: seq<Profiles -> Profiles>)
    requires updates != []
    ensures ApplyAll(reg, updates) == updates[|updates| - 1](ApplyAll(reg, updates[..|updates| - 1]))
    decreases |updates|
  {
    if |updates| > 1 {
      var rest := updates[1..];
      ApplyLast(updates[0](reg), rest);
      assert rest[..|rest| - 1] == updates[..|updates| - 1][1..];
    }
  }

  /** Over every run of calls that create, import, use and delete profiles: if those
      that complete did `changes`, in the order in which they took the lock, then the
      file has exactly the profiles that were made and not deleted since, each as it
      was made last and with its last use since. */
  lemma FileEntries(steps: seq<Step>, t: State, changes: seq<Change>, name: string)
    requires Run(START, steps, t)
    requires var done := InLockOrder(START, steps);
             |done| == |changes| && forall j, r :: 0 <= j < |done| ==> done[j](r) == Changed(r, changes[j])
    ensures !t.file.Partial?
    ensures var reg := LoadedFrom(t.file);
            && (name in reg <==> exists k: nat :: MadeAt(changes, k, name))
            && forall k: nat :: MadeAt(changes, k, name) ==> IsEntry(reg[name], changes, k, name)
  {
    RenamesInLockOrder(steps, t);
    NoUpdateIsLost(steps, t);
    hide Changed, ChangedBy, MadeAt, IsEntry, Run;
    AppliedIs(Renames(START, steps), changes);
    MadeIff(changes, name);
  }

  // ----- any closures that spare a profile -----------------------------------------------------

  ghost predicate Registers(update: Profiles -> Profiles, name: string, description: Option<string>, now: string) {
    forall r :: update(r) == Registered(r, name, description, now)
  }

  ghost predicate Touches(update: Profiles -> Profiles, name: string, now: string) {
    forall r :: update(r) == Touched(r, name, now)
  }

  /** The closure registers another profile, or touches any. */
  ghost predicate Spares(update: Profiles -> Profiles, name: string) {
    || (exists other, description, now :: other != name && Registers(update, other, description, now))
    || (exists other, now :: Touches(update, other, now))
  }

  /** What registration fixes. */
  predicate Holds(reg: Profiles, name: string, description: Option<string>, now: string) {
    name in reg && reg[name].name == name && reg[name].description == description && reg[name].createdAt == now
  }

  lemma RegisteredHolds(update: Profiles -> Profiles, reg: Profiles, name: string, description: Option<string>,
                        now: string)
    requires Registers(update, name, description, now)
    ensures Holds(update(reg), name, description, now)
  {
  }

  lemma SparedHolds(update: Profiles -> Profiles, reg: Profiles, name: string, description: Option<string>, now: string)
    requires Spares(update, name) && Holds(reg, name, description, now)
    ensures Holds(update(reg), name, description, now)
  {
  }

  lemma {:induction false} HoldsAfter(reg: Profiles, updates: seq<Profiles -> Profiles>, k: nat, name: string,
                                      description: Option<string>, now: string)
    requires k < |updates| && Registers(updates[k], name, description, now)
    requires forall j :: k < j < |updates| ==> Spares(updates[j], name)
    ensures Holds(ApplyAll(reg, updates), name, description, now)
    decreases |updates|
  {
    hide Registers, Spares, Holds;
    if k > 0 {
      HoldsAfter(updates[0](reg), updates[1..], k - 1, name, description, now);
    } else {
      RegisteredHolds(updates[0], reg, name, description, now);
      StillHolds(updates[0](reg), updates[1..], name, description, now);
    }
  }

  lemma {:induction false} StillHolds(reg: Profiles, updates: seq<Profiles -> Profiles>, name: string,
                                      description: Option<string>, now: string)
    requires Holds(reg, name, description, now)
    requires forall j :: 0 <= j < |updates| ==> Spares(updates[j], name)
    ensures Holds(ApplyAll(reg, updates), name, description, now)
    decreases |updates|
  {
    hide Registers, Spares, Holds;
    if updates != [] {
      SparedHolds(updates[0], reg, name, description, now);
      StillHolds(updates[0](reg), updates[1..], name, description, now);
    }
  }

  /** Over every run: if a call that registers a profile is the `k`-th to take the
      lock of those that complete, and all that take it later and complete
      register other profiles or touch some, then the file is there, and has the
      profile as it was registered. */
  lemma RegisteredStays(steps: seq<Step>, t: State, k: nat, name: string, description: Option<string>, now: string)
    requires Run(START, steps, t)
    requires var done := InLockOrder(START, steps);
             && k < |done| && Registers(done[k], name, description, now)
             && forall j :: k < j < |done| ==> Spares(done[j], name)
    ensures t.file.Complete? && Holds(t.file.reg, name, description, now)
  {
    hide Registers, Spares, Invariant, Enabled, Next;
    RenamesInLockOrder(steps, t);
    NoUpdateIsLost(steps, t);
    HoldsAfter(map[], Renames(START, steps), k, name, description, now);
  }

  /** Mutual exclusion, from which the rest follows: at most one call is
      between its lock and its unlock. */
  lemma OneInside(steps: seq<Step>, t: State, a: nat, b: nat)
    requires Run(START, steps, t)
    requires a in t.calls && Inside(t.calls[a].phase)
    requires b in t.calls && Inside(t.calls[b].phase)
    ensures a == b
  {
    FileIsAllRenames(START, steps, t);
  }
}
