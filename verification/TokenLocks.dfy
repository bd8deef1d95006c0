/** Token locks between processes (`src/config/profile.rs`, lines 545-623).

    A lock file records `profile:pid`; it is in the way only while that pid is
    alive. The check and the write of an acquisition are one step here. */
module TokenLocks {
  import opened Text
  import opened Numbers

  // ----- lock files ---------------------------------------------------------------

  function LockName(channel: string, tokenHash: string): string {
    channel + "_" + tokenHash + ".lock"
  }

  function Record(profile: string, pid: nat): string {
    profile + ":" + Print(pid)
  }

  /** `splitn(2, ':')`: what is before and after the first colon. */
  function CutAtColon(s: string): (r: Option<(string, string)>)
    ensures r.None? <==> ':' !in s
    ensures r.Some? ==> ':' !in r.value.0 && s == r.value.0 + ":" + r.value.1
  {
    if s == "" then None
    else if s[0] == ':' then Some(("", s[1..]))
    else
      match CutAtColon(s[1..])
      case None => None
      case Some((a, b)) => Some(([s[0]] + a, b))
  }

  /** The pid in a record; anything unreadable counts as 0. */
  function RecordedPid(text: string): nat {
    match Parse(text, U32_MAX)
    case Some(n) => n
    case None => 0
  }

  datatype AcquireResult =
    | Acquired
    | AlreadyRunning(pid: nat)
    | LockedBy(profile: string, pid: nat)

  /** What the lock file, if there is one, says to the process `pid` that runs
      under `profile`. */
  ghost function CheckLock(files: map<string, string>, name: string, profile: string, pid: nat,
                           alive: set<nat>): AcquireResult {
    if name !in files then Acquired
    else
      match CutAtColon(files[name])
      case None => Acquired
      case Some((owner, pidText)) =>
        var lockedPid := RecordedPid(pidText);
        if owner == profile then
          if lockedPid in alive && lockedPid != pid then AlreadyRunning(lockedPid) else Acquired
        else if lockedPid in alive then LockedBy(owner, lockedPid)
        else Acquired
  }

  /** The lock files after `release_all_locks`. */
  ghost function WithoutRecord(files: map<string, string>, record: string): map<string, string> {
    map n | n in files && Trim(files[n]) != record :: files[n]
  }

  /** The `locks` directory. */
  class LockDirectory {
    var files: map<string, string>

    constructor ()
      ensures files == map[]
    {
      files := map[];
    }

    method AcquireTokenLock(channel: string, tokenHash: string, profile: string, pid: nat, alive: set<nat>)
      returns (r: AcquireResult)
      modifies this
      ensures r == CheckLock(old(files), LockName(channel, tokenHash), profile, pid, alive)
      ensures files == if r == Acquired
                       then old(files)[LockName(channel, tokenHash) := Record(profile, pid)]
                       else old(files)
    {
      var lockFile := LockName(channel, tokenHash);
      if lockFile in files {
        var parts := CutAtColon(files[lockFile]);
        if parts.Some? {
          var lockedProfile := parts.value.0;
          var lockedPid := RecordedPid(parts.value.1);
          if lockedProfile == profile {
            if lockedPid in alive && lockedPid != pid {
              return AlreadyRunning(lockedPid);
            }
          } else {
            if lockedPid in alive {
              return LockedBy(lockedProfile, lockedPid);
            }
          }
        }
      }
      files := files[lockFile := Record(profile, pid)];
      return Acquired;
    }

    method ReleaseTokenLock(channel: string, tokenHash: string)
      modifies this
      ensures files == old(files) - {LockName(channel, tokenHash)}
    {
      files := files - {LockName(channel, tokenHash)};
    }

    method ReleaseAllLocks(profile: string, pid: nat)
      modifies this
      ensures files == WithoutRecord(old(files), Record(profile, pid))
    {
      var expected := Record(profile, pid);
      var entries := files.Keys;
      while entries != {}
        invariant entries <= files.Keys <= old(files).Keys
        invariant forall n :: n in files ==> files[n] == old(files)[n]
        invariant forall n :: n in old(files) ==>
                    (n in files <==> n in entries || Trim(old(files)[n]) != expected)
        decreases entries
      {
        var entry :| entry in entries;
        entries := entries - {entry};
        if Trim(files[entry]) == expected {
          files := files - {entry};
        }
      }
    }
  }

  // ----- what a record says ---------------------------------------------------------

  lemma {:induction false} CutAtFirst(a: string, b: string)
    requires ':' !in a
    ensures CutAtColon(a + ":" + b) == Some((a, b))
  {
    if a == "" {
      assert a + ":" + b == ":" + b;
    } else {
      assert (a + ":" + b)[1..] == a[1..] + ":" + b;
      CutAtFirst(a[1..], b);
      assert [a[0]] + a[1..] == a;
    }
  }

  lemma NoColonInDigits(s: string)
    requires AllDigits(s)
    ensures ':' !in s
  {
  }

  lemma ColonIsNoNumber(s: string)
    requires ':' in s
    ensures Parse(s, U32_MAX) == None
  {
    var digits := if s != "" && s[0] == '+' then s[1..] else s;
    var i :| 0 <= i < |s| && s[i] == ':';
    if s[0] == '+' {
      assert digits[i - 1] == ':';
    }
  }

  /** A record names its pid iff its profile has no colon; a profile with a
      colon makes the record read as pid 0. */
  lemma ReadRecord(profile: string, pid: nat)
    requires pid <= U32_MAX
    ensures var cut := CutAtColon(Record(profile, pid));
            && cut.Some?
            && (':' !in profile ==> cut.value.0 == profile && RecordedPid(cut.value.1) == pid)
            && (':' in profile ==> RecordedPid(cut.value.1) == 0)
  {
    hide Parse;
    ParsePrint(pid, U32_MAX);
    if ':' !in profile {
      CutAtFirst(profile, Print(pid));
    } else {
      var cut := CutAtColon(profile);
      var (a, b) := cut.value;
      assert Record(profile, pid) == a + ":" + (b + ":" + Print(pid));
      CutAtFirst(a, b + ":" + Print(pid));
      ColonIsNoNumber(b + ":" + Print(pid));
    }
  }

  lemma RecordInjective(a: string, m: nat, b: string, n: nat)
    requires Record(a, m) == Record(b, n)
    ensures a == b && m == n
  {
    NoColonInDigits(Print(m));
    NoColonInDigits(Print(n));
    SplitAtLast(a, Print(m), b, Print(n), ':');
    PrintInjective(m, n);
  }

  /** Trimming a record can only eat into the profile name. */
  lemma TrimRecord(profile: string, pid: nat) returns (rest: string)
    ensures Trim(Record(profile, pid)) == rest + ":" + Print(pid)
  {
    var digits := Print(pid);
    hide Trim, Print;
    DigitIsNoBlank(digits[|digits| - 1]);
    var tail := ":" + digits;
    rest := TrimKeepsTail(profile, tail);
    assert Record(profile, pid) == profile + tail;
    assert rest + ":" + digits == rest + tail;
  }

  lemma DigitIsNoBlank(c: char)
    requires '0' <= c <= '9'
    ensures !IsWhitespace(c)
  {
  }

  lemma ReleasedRecordIsOwn(a: string, m: nat, b: string, n: nat)
    requires Trim(Record(a, m)) == Record(b, n)
    ensures m == n
  {
    hide Trim;
    var rest := TrimRecord(a, m);
    NoColonInDigits(Print(m));
    NoColonInDigits(Print(n));
    SplitAtLast(rest, Print(m), b, Print(n), ':');
    PrintInjective(m, n);
  }

  /** Different credentials never contend for one lock file: hashes are hex
      digits, so the last underscore tells channel and hash apart. */
  lemma LockNameInjective(c1: string, t1: string, c2: string, t2: string)
    requires '_' !in t1 && '_' !in t2
    ensures LockName(c1, t1) == LockName(c2, t2) <==> c1 == c2 && t1 == t2
  {
    if LockName(c1, t1) == LockName(c2, t2) {
      var m1, m2 := c1 + "_" + t1, c2 + "_" + t2;
      assert LockName(c1, t1)[..|m1|] == m1 && LockName(c2, t2)[..|m2|] == m2;
      SplitAtLast(c1, t1, c2, t2, '_');
    }
  }

  // ----- any number of processes -------------------------------------------------------

  /** A running instance: its profile, and the locks it got and did not release. */
  datatype Process = Process(profile: string, held: set<string>)

  /** `others` are the pids of unrelated live processes. */
  datatype State = State(files: map<string, string>, processes: map<nat, Process>, others: set<nat>)
  {
    /** `kill(pid, 0)` succeeds; pid 0 stands for the caller's own group. */
    ghost function Alive(): set<nat> {
      {0} + processes.Keys + others
    }
  }

  datatype Step =
    | Spawn(pid: nat, profile: string)
    | SpawnOther(pid: nat)
    | ExitOther(pid: nat)
    | Acquire(pid: nat, name: string)
    | Release(pid: nat, name: string)
    | ReleaseAll(pid: nat)
    | Crash(pid: nat)

  ghost predicate Enabled(s: State, step: Step) {
    match step
    case Spawn(pid, _) => 0 < pid <= U32_MAX && pid !in s.Alive()
    case SpawnOther(pid) => 0 < pid <= U32_MAX && pid !in s.Alive()
    case ExitOther(pid) => pid in s.others
    case Acquire(pid, _) => pid in s.processes
    case Release(pid, name) => pid in s.processes && name in s.processes[pid].held
    case ReleaseAll(pid) => pid in s.processes
    case Crash(pid) => pid in s.processes
  }

  ghost function Next(s: State, step: Step): State
    requires Enabled(s, step)
  {
    match step
    case Spawn(pid, profile) => s.(processes := s.processes[pid := Process(profile, {})])
    case SpawnOther(pid) => s.(others := s.others + {pid})
    case ExitOther(pid) => s.(others := s.others - {pid})
    case Acquire(pid, name) =>
      var p := s.processes[pid];
      if CheckLock(s.files, name, p.profile, pid, s.Alive()) == Acquired then
        s.(files := s.files[name := Record(p.profile, pid)],
           processes := s.processes[pid := p.(held := p.held + {name})])
      else s
    case Release(pid, name) =>
      var p := s.processes[pid];
      s.(files := s.files - {name}, processes := s.processes[pid := p.(held := p.held - {name})])
    case ReleaseAll(pid) =>
      var p := s.processes[pid];
      s.(files := WithoutRecord(s.files, Record(p.profile, pid)),
         processes := s.processes[pid := p.(held := {})])
    case Crash(pid) => s.(processes := s.processes - {pid})
  }

  /** A run of enabled steps from `s`. */
  ghost predicate Run(s: State, steps: seq<Step>, t: State)
    decreases |steps|
  {
    if steps == [] then s == t
    else Enabled(s, steps[0]) && Run(Next(s, steps[0]), steps[1..], t)
  }

  const START := State(map[], map[], {})

  // ----- the invariant ---------------------------------------------------------------------

  /** Every lock that a live process holds is on disk under its own record. */
  ghost predicate HeldOnDisk(s: State) {
    forall pid, name :: pid in s.processes && name in s.processes[pid].held ==>
      name in s.files && s.files[name] == Record(s.processes[pid].profile, pid)
  }

  ghost predicate IsRecord(text: string) {
    exists profile: string, pid: nat :: 0 < pid <= U32_MAX && text == Record(profile, pid)
  }

  ghost predicate Invariant(s: State) {
    && (forall pid :: pid in s.processes ==> 0 < pid <= U32_MAX)
    && HeldOnDisk(s)
    && (forall name :: name in s.files ==> IsRecord(s.files[name]))
  }

  lemma OnDisk(s: State, pid: nat, name: string)
    requires Invariant(s) && pid in s.processes && name in s.processes[pid].held
    ensures name in s.files && s.files[name] == Record(s.processes[pid].profile, pid)
  {
  }

  /** An acquisition succeeds iff there is no lock, or its profile has no
      colon and it is dead or the caller's own. */
  lemma AcquireIff(s: State, name: string, profile: string, pid: nat, owner: string, recorded: nat)
    requires name in s.files && s.files[name] == Record(owner, recorded)
    requires 0 < recorded <= U32_MAX && 0 < pid
    ensures CheckLock(s.files, name, profile, pid, s.Alive()) == Acquired <==>
            && ':' !in owner
            && (recorded !in s.Alive() || (recorded == pid && owner == profile))
  {
    hide CutAtColon, RecordedPid, Record;
    ReadRecord(owner, recorded);
    if ':' in owner {
      assert 0 in s.Alive();
    }
  }

  /** While a process is alive nobody else gets a lock that it holds. */
  lemma HeldIsRefused(s: State, p: nat, q: nat, name: string)
    requires Invariant(s) && p in s.processes && q in s.processes && p != q
    requires name in s.processes[p].held
    ensures CheckLock(s.files, name, s.processes[q].profile, q, s.Alive()) != Acquired
  {
    hide CheckLock, Record;
    AcquireIff(s, name, s.processes[q].profile, q, s.processes[p].profile, p);
  }

  lemma InvariantNext(s: State, step: Step)
    requires Invariant(s) && Enabled(s, step)
    ensures Invariant(Next(s, step))
  {
    hide CheckLock, Record, IsRecord, Trim;
    match step {
      case Acquire(pid, name) =>
        assert IsRecord(Record(s.processes[pid].profile, pid)) by {
          RecordIsRecord(s.processes[pid].profile, pid);
        }
        forall p | p in s.processes && p != pid && name in s.processes[p].held
          ensures CheckLock(s.files, name, s.processes[pid].profile, pid, s.Alive()) != Acquired
        {
          HeldIsRefused(s, p, pid, name);
        }
      case Release(pid, name) =>
        forall p | p in s.processes && p != pid
          ensures name !in s.processes[p].held
        {
          if name in s.processes[p].held {
            OnDisk(s, p, name);
            OnDisk(s, pid, name);
            RecordInjective(s.processes[p].profile, p, s.processes[pid].profile, pid);
          }
        }
      case ReleaseAll(pid) =>
        forall p, name | p in s.processes && p != pid && name in s.processes[p].held
          ensures Trim(s.files[name]) != Record(s.processes[pid].profile, pid)
        {
          if Trim(s.files[name]) == Record(s.processes[pid].profile, pid) {
            ReleasedRecordIsOwn(s.processes[p].profile, p, s.processes[pid].profile, pid);
          }
        }
      case Spawn(_, _) =>
      case SpawnOther(_) =>
      case ExitOther(_) =>
      case Crash(_) =>
    }
  }

  lemma RecordIsRecord(profile: string, pid: nat)
    requires 0 < pid <= U32_MAX
    ensures IsRecord(Record(profile, pid))
  {
  }

  lemma {:induction false} InvariantRun(s: State, steps: seq<Step>, t: State)
    requires Invariant(s) && Run(s, steps, t)
    ensures Invariant(t)
    decreases |steps|
  {
    hide Invariant, Next, Enabled;
    if steps != [] {
      InvariantNext(s, steps[0]);
      InvariantRun(Next(s, steps[0]), steps[1..], t);
    }
  }

  // ----- the main results --------------------------------------------------------------------

  /** Mutual exclusion: after every run of spawns (pids may be reused),
      acquisitions, releases and crashes, by any number of processes under any
      profile names, no two live processes hold the same lock. */
  lemma MutualExclusion(steps: seq<Step>, t: State, p: nat, q: nat, name: string)
    requires Run(START, steps, t)
    requires p in t.processes && name in t.processes[p].held
    requires q in t.processes && name in t.processes[q].held
    ensures p == q
  {
    InvariantRun(START, steps, t);
    hide Record;
    OnDisk(t, p, name);
    OnDisk(t, q, name);
    RecordInjective(t.processes[p].profile, p, t.processes[q].profile, q);
  }

  lemma AcquireEffect(s: State, q: nat, name: string)
    requires q in s.processes
    ensures q in Next(s, Acquire(q, name)).processes
    ensures name in Next(s, Acquire(q, name)).processes[q].held <==>
            || CheckLock(s.files, name, s.processes[q].profile, q, s.Alive()) == Acquired
            || name in s.processes[q].held
  {
    hide CheckLock, Record, WithoutRecord;
  }

  /** Takeover: in every reachable state a lock whose recorded process is dead
      can be acquired by every live process iff the recorded profile name has
      no colon in it. */
  lemma DeadLockTakeover(steps: seq<Step>, t: State, q: nat, name: string) returns (owner: string, recorded: nat)
    requires Run(START, steps, t) && q in t.processes && name in t.files
    ensures t.files[name] == Record(owner, recorded)
    ensures recorded !in t.Alive() ==>
              (name in Next(t, Acquire(q, name)).processes[q].held <==> ':' !in owner)
  {
    InvariantRun(START, steps, t);
    hide Record, CheckLock, Run, CutAtColon, Next, IsWhitespace;
    AcquireEffect(t, q, name);
    owner, recorded :| 0 < recorded <= U32_MAX && t.files[name] == Record(owner, recorded);
    AcquireIff(t, name, t.processes[q].profile, q, owner, recorded);
    if name in t.processes[q].held {
      OnDisk(t, q, name);
      RecordInjective(owner, recorded, t.processes[q].profile, q);
    }
  }

  /** Names that `validate_profile_name` accepts have no colon. */
  predicate IsNameChar(c: char, alphanumeric: set<char>) {
    c in alphanumeric || c == '-' || c == '_'
  }

  /** A profile name as `validate_profile_name` wants it; `alphanumeric` is
      Unicode's class, of which only the absence of the colon matters. */
  predicate ValidProfileName(name: string, alphanumeric: set<char>) {
    && name != "default"
    && 0 < ByteLen(name) <= 64
    && forall i :: 0 <= i < |name| ==> IsNameChar(name[i], alphanumeric)
  }

  lemma ValidNamesAreTakenOver(name: string, alphanumeric: set<char>)
    requires ':' !in alphanumeric
    ensures ValidProfileName(name, alphanumeric) || name == "default" ==> ':' !in name
  {
  }

  // ----- a lock that stays ------------------------------------------------------------------

  const COLON: string := "a:b"
  const LEFT: seq<Step> := [Spawn(1, COLON), Acquire(1, "x.lock"), Crash(1), Spawn(2, "ops")]

  /** A process under a profile with a colon in its name takes a lock and dies;
      no process can take the lock over, although nobody holds it. */
  lemma DeadLockStays() returns (t: State)
    ensures Run(START, LEFT, t)
    ensures t.processes == map[2 := Process("ops", {})] && 1 !in t.Alive() && "x.lock" in t.files
    ensures Next(t, Acquire(2, "x.lock")) == t
  {
    hide Record, Print;
    var name := "x.lock";
    var s1 := Next(START, LEFT[0]);
    var s2 := Next(s1, LEFT[1]);
    var s3 := Next(s2, LEFT[2]);
    t := Next(s3, LEFT[3]);
    assert s2.files == map[name := Record(COLON, 1)] && t.files == s2.files;
    assert s3.processes == map[];
    LeftRuns(t);
    assert COLON[1] == ':';
    AcquireIff(t, name, "ops", 2, COLON, 1);
  }

  lemma LeftRuns(t: State)
    requires Enabled(START, LEFT[0])
    requires var s1 := Next(START, LEFT[0]); Enabled(s1, LEFT[1])
    requires var s2 := Next(Next(START, LEFT[0]), LEFT[1]); Enabled(s2, LEFT[2])
    requires var s3 := Next(Next(Next(START, LEFT[0]), LEFT[1]), LEFT[2]);
             Enabled(s3, LEFT[3]) && t == Next(s3, LEFT[3])
    ensures Run(START, LEFT, t)
  {
    hide Next, Enabled;
    assert LEFT[1..][1..] == LEFT[2..] && LEFT[2..][1..] == LEFT[3..] && LEFT[3..][1..] == [];
    var s1 := Next(START, LEFT[0]);
    var s2 := Next(s1, LEFT[1]);
    var s3 := Next(s2, LEFT[2]);
    assert Run(t, [], t);
    assert Run(s3, LEFT[3..], t);
    assert Run(s2, LEFT[2..], t);
    assert Run(s1, LEFT[1..], t);
  }

  // ----- what an acquisition says, and what a release frees -------------------------------------

  /** The number that a text reads as, 0 if it is none. */
  predicate ReadsAs(text: string, pid: nat) {
    match Parse(text, U32_MAX)
    case Some(n) => pid == n
    case None => pid == 0
  }

  /** The outcome of an acquisition for any contents of the lock file at all: one
      without a colon is no lock; else the profile before the first colon and the pid
      behind it decide. */
  lemma OutcomeIs(files: map<string, string>, name: string, profile: string, pid: nat, alive: set<nat>,
                  owner: string, rest: string, locked: nat)
    ensures var r := CheckLock(files, name, profile, pid, alive);
            && (name !in files || ':' !in files[name] ==> r == Acquired)
            && (name in files && files[name] == owner + ":" + rest && ':' !in owner && ReadsAs(rest, locked) ==>
                  && (r == Acquired <==> locked !in alive || (owner == profile && locked == pid))
                  && (r == AlreadyRunning(locked) <==> locked in alive && owner == profile && locked != pid)
                  && (r == LockedBy(owner, locked) <==> locked in alive && owner != profile))
  {
    hide Parse;
    if name in files && files[name] == owner + ":" + rest && ':' !in owner {
      CutAtFirst(owner, rest);
    }
  }

  lemma RecordTrims(profile: string, pid: nat)
    ensures Trim(Record(profile, pid)) == Record(profile, pid) <==> profile == "" || !IsWhitespace(profile[0])
  {
    hide IsWhitespace, Print;
    var record := Record(profile, pid);
    var digits := Print(pid);
    DigitIsNoBlank(digits[|digits| - 1]);
    ColonIsNoBlank();
    assert record[|record| - 1] == digits[|digits| - 1];
    if profile == "" || !IsWhitespace(profile[0]) {
      TrimFixed(record);
    } else {
      TrimDropsBlank(record);
      TrimIsShorter(record[1..]);
    }
  }

  lemma ColonIsNoBlank()
    ensures !IsWhitespace(':')
  {
  }

  /** The release of all locks removes the lock files of the process exactly if its
      profile name does not begin with a blank; one that does is trimmed off the
      record before it is compared. */
  lemma ReleaseAllFreesIff(steps: seq<Step>, t: State, pid: nat, name: string)
    requires Run(START, steps, t) && pid in t.processes && name in t.processes[pid].held
    ensures name !in Next(t, ReleaseAll(pid)).files <==>
            t.processes[pid].profile == "" || !IsWhitespace(t.processes[pid].profile[0])
  {
    InvariantRun(START, steps, t);
    hide Record, Run, Invariant, IsWhitespace, Trim, Next;
    OnDisk(t, pid, name);
    var record := Record(t.processes[pid].profile, pid);
    RecordTrims(t.processes[pid].profile, pid);
    KeepsIff(t.files, record, name);
    AfterReleaseAll(t, pid);
  }

  lemma AfterReleaseAll(s: State, pid: nat)
    requires pid in s.processes
    ensures Next(s, ReleaseAll(pid)).files == WithoutRecord(s.files, Record(s.processes[pid].profile, pid))
  {
    hide Record, WithoutRecord;
  }

  lemma KeepsIff(files: map<string, string>, record: string, name: string)
    ensures name in WithoutRecord(files, record) <==> name in files && Trim(files[name]) != record
  {
    hide Trim;
  }

  /** What is released can be taken by any process. */
  lemma ReleasedIsFree(s: State, pid: nat, name: string, q: nat)
    requires Enabled(s, Release(pid, name)) && q in s.processes
    ensures var t := Next(s, Release(pid, name));
            q in t.processes && name in Next(t, Acquire(q, name)).processes[q].held
  {
    hide Record;
  }

  const BLANK: string := " a"

  /** Such a process: it takes a lock, releases all its locks, and the lock file
      stays. */
  lemma BlankKeepsLock()
    ensures var s := Next(START, Spawn(1, BLANK));
            var t := Next(s, Acquire(1, "x.lock"));
            && "x.lock" in t.processes[1].held
            && "x.lock" in Next(t, ReleaseAll(1)).files
  {
    hide Record, IsWhitespace, Trim;
    var s := Next(START, Spawn(1, BLANK));
    var t := Next(s, Acquire(1, "x.lock"));
    RecordTrims(BLANK, 1);
    BlankIsBlank();
    assert t.files["x.lock"] == Record(BLANK, 1);
  }

  lemma BlankIsBlank()
    ensures IsWhitespace(BLANK[0])
  {
  }
}
