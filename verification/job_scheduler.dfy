/**
 * The capability-aware job scheduler (q22_job_scheduler, JobScheduler.java).
 *
 * Machines are registered with a set of capability tokens; a job asks for a
 * set of tokens and is placed on one machine that offers all of them, chosen
 * by a ranking strategy (fewest unfinished jobs, or most finished jobs) with
 * the lexicographically smallest machine id breaking ties. Assignment of a
 * known job id and completion of a completed job are idempotent.
 */
module JobScheduler {
  import opened Common
  import Strings
  import Ordering

  datatype Machine = Machine(caps: set<string>, unfinished: nat, finished: nat)

  datatype Status = Assigned | Completed

  datatype Job = Job(machine: string, status: Status)

  /** Machines by id, jobs by id, and the inverted index capability -> machine ids. */
  datatype Scheduler = Scheduler(
    machines: map<string, Machine>,
    jobs: map<string, Job>,
    index: map<string, set<string>>)

  datatype Error = BlankId | DuplicateMachine | UnknownJob | MissingMachine

  /** The two registered strategies; every other criteria code falls back to the first. */
  datatype Strategy = LeastUnfinished | MostFinished

  // ---------------------------------------------------------------------------
  // Capability tokens
  // ---------------------------------------------------------------------------

  /** A normalized token: non-empty, trimmed, lower-case, with single spaces only. */
  predicate IsToken(t: string) {
    t != [] && Strings.IsTrimmed(t) && Strings.HasNoUpper(t) && Strings.IsCollapsed(t)
  }

  /**
   * `normalizeCapabilityToken`: trim, lower-case, collapse each whitespace run
   * to one space. The token keeps the words of the trimmed, lower-cased input,
   * in order; being collapsed and trimmed, it is those words joined by single
   * spaces.
   */
  function NormalizeToken(raw: string): (t: string)
    ensures t == [] <==> Strings.IsTrimBlank(raw)
    ensures t != [] ==> IsToken(t)
    ensures Strings.Words(t) == Strings.Words(Strings.ToLower(Strings.Trim(raw)))
  {
    var lower := Strings.ToLower(Strings.Trim(raw));
    var t := Strings.Collapse(lower);
    TokenFacts(raw);
    Strings.WordsCollapse(lower);
    t
  }

  /** The normalized token is the words of the trimmed, lower-cased input joined by single spaces. */
  lemma NormalizeJoinsWords(raw: string)
    ensures NormalizeToken(raw) == Strings.Join(Strings.Words(Strings.ToLower(Strings.Trim(raw))), ' ')
  {
    var t := NormalizeToken(raw);
    if t != [] {
      assert !Strings.IsRegexSpace(t[0]) && !Strings.IsRegexSpace(t[|t| - 1]);
    }
    Strings.CollapsedIsJoinedWords(t);
  }

  lemma TokenFacts(raw: string)
    ensures var t := Strings.Collapse(Strings.ToLower(Strings.Trim(raw)));
            (t == [] <==> Strings.IsTrimBlank(raw)) && (t != [] ==> IsToken(t))
  {
    var trimmed := Strings.Trim(raw);
    LowerFacts(trimmed);
    CollapseFacts(Strings.ToLower(trimmed));
  }

  /** Collapsing a trimmed lower-case string gives a token, or "" for "". */
  lemma CollapseFacts(lower: string)
    requires Strings.IsTrimmed(lower) && Strings.HasNoUpper(lower)
    ensures var t := Strings.Collapse(lower);
            (t == [] <==> lower == []) && (t != [] ==> IsToken(t))
  {
    var t := Strings.Collapse(lower);
    Strings.CollapseKeepsNoUpper(lower);
    if lower != [] {
      assert t[0] == lower[0];
      assert t[|t| - 1] == lower[|lower| - 1];
    }
  }

  /** Lower-casing a trimmed string keeps it trimmed and leaves no upper-case letter. */
  lemma LowerFacts(s: string)
    requires Strings.IsTrimmed(s)
    ensures Strings.HasNoUpper(Strings.ToLower(s))
    ensures Strings.IsTrimmed(Strings.ToLower(s))
  {
    var l := Strings.ToLower(s);
    forall k | 0 <= k < |s|
      ensures !Strings.IsUpper(l[k])
      ensures Strings.IsTrimChar(l[k]) == Strings.IsTrimChar(s[k])
    {
      assert l[k] == Strings.LowerChar(s[k]);
    }
  }

  /** Normalizing a normalized token changes nothing. */
  lemma NormalizeIdempotent(raw: string)
    ensures NormalizeToken(NormalizeToken(raw)) == NormalizeToken(raw)
  {
    var t := NormalizeToken(raw);
    if t != [] {
      Strings.TrimOfTrimmed(t);
      Strings.LowerOfNoUpper(t);
      Strings.CollapseOfCollapsed(t);
    }
  }

  /** `normalizeCapabilities`: the set of normalized tokens, blank ones dropped. */
  function NormalizeCaps(caps: seq<string>): (r: set<string>)
    ensures forall t :: t in r ==> IsToken(t)
    ensures forall k :: 0 <= k < |caps| && !Strings.IsTrimBlank(caps[k]) ==> NormalizeToken(caps[k]) in r
    ensures forall t :: t in r ==> exists k :: 0 <= k < |caps| && NormalizeToken(caps[k]) == t
  {
    set c | c in caps && NormalizeToken(c) != [] :: NormalizeToken(c)
  }

  // ---------------------------------------------------------------------------
  // State invariant
  // ---------------------------------------------------------------------------

  function AssignedOn(jobs: map<string, Job>, id: string): set<string> {
    set j | j in jobs && jobs[j] == Job(id, Assigned)
  }

  function CompletedOn(jobs: map<string, Job>, id: string): set<string> {
    set j | j in jobs && jobs[j] == Job(id, Completed)
  }

  /**
   * Ids are trimmed and non-blank; the index holds exactly the pairs
   * (capability, machine offering it); every job names a known machine; and
   * each machine's counters count its assigned and its completed jobs.
   */
  ghost predicate Valid(s: Scheduler) {
    IdsOk(s) && IndexSound(s) && IndexComplete(s) && JobsOk(s) && CountsOk(s)
  }

  ghost predicate IdsOk(s: Scheduler) {
    forall id :: id in s.machines ==> id != [] && Strings.IsTrimmed(id)
  }

  ghost predicate IndexSound(s: Scheduler) {
    forall c, id :: c in s.index && id in s.index[c] ==> id in s.machines && c in s.machines[id].caps
  }

  ghost predicate IndexComplete(s: Scheduler) {
    forall id, c :: id in s.machines && c in s.machines[id].caps ==> c in s.index && id in s.index[c]
  }

  ghost predicate JobsOk(s: Scheduler) {
    forall j :: j in s.jobs ==> j != [] && s.jobs[j].machine in s.machines
  }

  ghost predicate CountsOk(s: Scheduler) {
    forall id :: id in s.machines ==>
      s.machines[id].unfinished == |AssignedOn(s.jobs, id)| &&
      s.machines[id].finished == |CompletedOn(s.jobs, id)|
  }

  function Empty(): (s: Scheduler)
    ensures Valid(s)
  {
    Scheduler(map[], map[], map[])
  }

  // ---------------------------------------------------------------------------
  // addMachine
  // ---------------------------------------------------------------------------

  function IndexMachine(index: map<string, set<string>>, id: string, caps: set<string>): map<string, set<string>> {
    map c | c in index.Keys + caps ::
      (if c in index then index[c] else {}) + (if c in caps then {id} else {})
  }

  /** `addMachine`: registers a new machine with zero counters and indexes its capabilities. */
  function AddMachine(s: Scheduler, machineId: string, caps: seq<string>): (r: Result<Scheduler, Error>)
    ensures Strings.IsTrimBlank(machineId) ==> r == Err(BlankId)
    ensures !Strings.IsTrimBlank(machineId) && Strings.Trim(machineId) in s.machines ==> r == Err(DuplicateMachine)
    ensures !Strings.IsTrimBlank(machineId) && Strings.Trim(machineId) !in s.machines ==>
      && r.Ok?
      && r.value.machines == s.machines[Strings.Trim(machineId) := Machine(NormalizeCaps(caps), 0, 0)]
      && r.value.jobs == s.jobs
  {
    var id := Strings.Trim(machineId);
    if id == [] then Err(BlankId)
    else if id in s.machines then Err(DuplicateMachine)
    else
      var caps' := NormalizeCaps(caps);
      Ok(Scheduler(s.machines[id := Machine(caps', 0, 0)], s.jobs, IndexMachine(s.index, id, caps')))
  }

  /** `addMachine` keeps the scheduler valid: in particular the index stays exactly the capability/machine pairs. */
  lemma AddMachinePreservesValid(s: Scheduler, machineId: string, caps: seq<string>)
    requires Valid(s)
    ensures AddMachine(s, machineId, caps).Ok? ==> Valid(AddMachine(s, machineId, caps).value)
  {
    var id := Strings.Trim(machineId);
    if id != [] && id !in s.machines {
      AddKeepsValid(s, id, NormalizeCaps(caps));
    }
  }

  lemma AddKeepsValid(s: Scheduler, id: string, caps: set<string>)
    requires Valid(s)
    requires id != [] && Strings.IsTrimmed(id) && id !in s.machines
    ensures Valid(Scheduler(s.machines[id := Machine(caps, 0, 0)], s.jobs, IndexMachine(s.index, id, caps)))
  {
    var t := Scheduler(s.machines[id := Machine(caps, 0, 0)], s.jobs, IndexMachine(s.index, id, caps));
    assert IdsOk(t) && JobsOk(t);
    AddKeepsIndex(s, id, caps);
    AddKeepsCounts(s, id, caps);
  }

  lemma AddKeepsIndex(s: Scheduler, id: string, caps: set<string>)
    requires IndexSound(s) && IndexComplete(s)
    requires id !in s.machines
    ensures var t := Scheduler(s.machines[id := Machine(caps, 0, 0)], s.jobs, IndexMachine(s.index, id, caps));
            IndexSound(t) && IndexComplete(t)
  {
    var t := Scheduler(s.machines[id := Machine(caps, 0, 0)], s.jobs, IndexMachine(s.index, id, caps));
    forall c, x | c in t.index && x in t.index[c]
      ensures x in t.machines && c in t.machines[x].caps
    {
      if x != id {
        assert c in s.index && x in s.index[c];
      }
    }
    forall x, c | x in t.machines && c in t.machines[x].caps
      ensures c in t.index && x in t.index[c]
    {
      if x != id {
        assert c in s.index && x in s.index[c];
      }
    }
  }

  lemma AddKeepsCounts(s: Scheduler, id: string, caps: set<string>)
    requires CountsOk(s) && JobsOk(s)
    requires id !in s.machines
    ensures CountsOk(Scheduler(s.machines[id := Machine(caps, 0, 0)], s.jobs, IndexMachine(s.index, id, caps)))
  {
    assert AssignedOn(s.jobs, id) == {};
    assert CompletedOn(s.jobs, id) == {};
  }

  // ---------------------------------------------------------------------------
  // Candidate lookup and strategies
  // ---------------------------------------------------------------------------

  /** Intersection of the index sets of the required tokens; every machine when nothing is required. */
  function Candidates(s: Scheduler, required: set<string>): (r: set<string>)
    requires IndexSound(s) && IndexComplete(s)
    ensures r <= s.machines.Keys
    ensures forall id :: id in r <==> id in s.machines && required <= s.machines[id].caps
  {
    if required == {} then s.machines.Keys
    else if exists c :: c in required && (c !in s.index || s.index[c] == {}) then {}
    else set id | id in s.machines.Keys && forall c :: c in required ==> c in s.index && id in s.index[c]
  }

  function StrategyFor(criteria: int): Strategy {
    if criteria == 1 then MostFinished else LeastUnfinished
  }

  /** The primary key a strategy minimizes. */
  function Rank(m: Machine, strategy: Strategy): int {
    match strategy
    case LeastUnfinished => m.unfinished
    case MostFinished => -(m.finished as int)
  }

  /** `a` ranks no worse than `b`: smaller key, or equal key and an id no greater. */
  predicate RanksFirst(machines: map<string, Machine>, strategy: Strategy, a: string, b: string)
    requires a in machines && b in machines
  {
    var ka := Rank(machines[a], strategy);
    var kb := Rank(machines[b], strategy);
    ka < kb || (ka == kb && Strings.LessEq(a, b))
  }

  /** `select`: the candidate that ranks first under the strategy. */
  function Select(machines: map<string, Machine>, candidates: set<string>, strategy: Strategy): (chosen: string)
    requires candidates != {} && candidates <= machines.Keys
    ensures chosen in candidates
    ensures forall id :: id in candidates ==> RanksFirst(machines, strategy, chosen, id)
  {
    var key := (id: string) => if id in machines then Rank(machines[id], strategy) else 0;
    Ordering.Least(key, candidates)
  }

  // ---------------------------------------------------------------------------
  // assignMachineToJob
  // ---------------------------------------------------------------------------

  lemma AssignedAfterNewJob(jobs: map<string, Job>, j: string, v: Job, id: string)
    requires j !in jobs
    ensures AssignedOn(jobs[j := v], id) == AssignedOn(jobs, id) + (if v == Job(id, Assigned) then {j} else {})
    ensures CompletedOn(jobs[j := v], id) == CompletedOn(jobs, id) + (if v == Job(id, Completed) then {j} else {})
  {
  }

  /** Recording a new job changes only the counts of the machine it names. */
  lemma CountsAfterNewJob(jobs: map<string, Job>, j: string, v: Job, id: string)
    requires j !in jobs
    ensures |AssignedOn(jobs[j := v], id)| == |AssignedOn(jobs, id)| + (if v == Job(id, Assigned) then 1 else 0)
    ensures |CompletedOn(jobs[j := v], id)| == |CompletedOn(jobs, id)| + (if v == Job(id, Completed) then 1 else 0)
  {
    AssignedAfterNewJob(jobs, j, v, id);
    assert j !in AssignedOn(jobs, id) && j !in CompletedOn(jobs, id);
  }

  /** Completing an assigned job moves it from one count of its machine to the other. */
  lemma CountsAfterCompletion(jobs: map<string, Job>, j: string, m: string, id: string)
    requires j in jobs && jobs[j] == Job(m, Assigned)
    ensures |AssignedOn(jobs[j := Job(m, Completed)], id)| == |AssignedOn(jobs, id)| - (if id == m then 1 else 0)
    ensures |CompletedOn(jobs[j := Job(m, Completed)], id)| == |CompletedOn(jobs, id)| + (if id == m then 1 else 0)
  {
    var t := jobs[j := Job(m, Completed)];
    if id == m {
      assert j in AssignedOn(jobs, id) && j !in CompletedOn(jobs, id);
      assert AssignedOn(t, id) == AssignedOn(jobs, id) - {j};
      assert CompletedOn(t, id) == CompletedOn(jobs, id) + {j};
    } else {
      assert AssignedOn(t, id) == AssignedOn(jobs, id);
      assert CompletedOn(t, id) == CompletedOn(jobs, id);
    }
  }

  /** The scheduler after recording job `jid` on machine `m`. */
  function Place(s: Scheduler, jid: string, m: string): Scheduler
    requires m in s.machines
  {
    var mach := s.machines[m];
    s.(jobs := s.jobs[jid := Job(m, Assigned)], machines := s.machines[m := mach.(unfinished := mach.unfinished + 1)])
  }

  /**
   * The placement of a new job: the best-ranked machine offering every
   * required token gets the job, or "" (nothing recorded) when no machine
   * offers them all.
   */
  function PlaceNew(s: Scheduler, jid: string, req: set<string>, criteria: int): (r: (Scheduler, string))
    requires IdsOk(s) && IndexSound(s) && IndexComplete(s)
    ensures var (t, m) := r;
      && (m == "" <==> forall id :: id in s.machines ==> !(req <= s.machines[id].caps))
      && (m == "" ==> t == s)
      && (m != "" ==>
            && m in s.machines
            && req <= s.machines[m].caps
            && (forall id :: id in s.machines && req <= s.machines[id].caps ==>
                  RanksFirst(s.machines, StrategyFor(criteria), m, id))
            && t.jobs == s.jobs[jid := Job(m, Assigned)]
            && t.machines.Keys == s.machines.Keys
            && t.machines[m] == s.machines[m].(unfinished := s.machines[m].unfinished + 1)
            && (forall id :: id in s.machines && id != m ==> t.machines[id] == s.machines[id])
            && t.index == s.index)
  {
    var candidates := Candidates(s, req);
    if candidates == {} then (s, "")
    else
      var m := Select(s.machines, candidates, StrategyFor(criteria));
      (Place(s, jid, m), m)
  }

  /**
   * `assignMachineToJob`: a blank id is rejected, a known job gets its stored
   * machine back with nothing changed, and a new job is placed.
   */
  function Assign(s: Scheduler, jobId: string, required: seq<string>, criteria: int): (r: Result<(Scheduler, string), Error>)
    requires Valid(s)
    ensures Strings.IsTrimBlank(jobId) <==> r == Err(BlankId)
    ensures Strings.Trim(jobId) in s.jobs ==> r == Ok((s, s.jobs[Strings.Trim(jobId)].machine))
    ensures !Strings.IsTrimBlank(jobId) && Strings.Trim(jobId) !in s.jobs ==>
              r == Ok(PlaceNew(s, Strings.Trim(jobId), NormalizeCaps(required), criteria))
  {
    var jid := Strings.Trim(jobId);
    if jid == [] then Err(BlankId)
    else if jid in s.jobs then Ok((s, s.jobs[jid].machine))
    else Ok(PlaceNew(s, jid, NormalizeCaps(required), criteria))
  }

  /** `assignMachineToJob` keeps the scheduler valid. */
  lemma AssignPreservesValid(s: Scheduler, jobId: string, required: seq<string>, criteria: int)
    requires Valid(s)
    ensures Assign(s, jobId, required, criteria).Ok? ==> Valid(Assign(s, jobId, required, criteria).value.0)
  {
    var jid := Strings.Trim(jobId);
    if jid != [] && jid !in s.jobs {
      var (t, m) := PlaceNew(s, jid, NormalizeCaps(required), criteria);
      if m != "" {
        PlacePreservesValid(s, jid, m);
      }
    }
  }

  lemma PlacePreservesValid(s: Scheduler, jid: string, m: string)
    requires Valid(s)
    requires jid != [] && jid !in s.jobs && m in s.machines
    ensures Valid(Place(s, jid, m))
  {
    var t := Place(s, jid, m);
    assert IdsOk(t) && JobsOk(t);
    SameCapsKeepIndex(s, t);
    PlaceKeepsCounts(s, jid, m);
  }

  lemma PlaceKeepsCounts(s: Scheduler, jid: string, m: string)
    requires CountsOk(s)
    requires jid !in s.jobs && m in s.machines
    ensures CountsOk(Place(s, jid, m))
  {
    var t := Place(s, jid, m);
    forall id | id in t.machines
      ensures t.machines[id].unfinished == |AssignedOn(t.jobs, id)|
      ensures t.machines[id].finished == |CompletedOn(t.jobs, id)|
    {
      CountsAfterNewJob(s.jobs, jid, Job(m, Assigned), id);
    }
  }

  // ---------------------------------------------------------------------------
  // jobCompleted
  // ---------------------------------------------------------------------------

  /** The state after job `jid` on machine `m` completes: the unfinished counter drops (not below zero), the finished one grows. */
  function AfterCompletion(s: Scheduler, jid: string, m: string): Scheduler
    requires m in s.machines
  {
    var mach := s.machines[m];
    var unfinished := if mach.unfinished > 0 then mach.unfinished - 1 else 0;
    s.(jobs := s.jobs[jid := Job(m, Completed)],
       machines := s.machines[m := Machine(mach.caps, unfinished, mach.finished + 1)])
  }

  /**
   * `jobCompleted`: an assigned job becomes completed and its machine moves
   * one job from unfinished (floored at zero) to finished; a completed job is
   * left alone.
   */
  function Complete(s: Scheduler, jobId: string): (r: Result<Scheduler, Error>)
    ensures Strings.IsTrimBlank(jobId) ==> r == Err(BlankId)
    ensures !Strings.IsTrimBlank(jobId) && Strings.Trim(jobId) !in s.jobs ==> r == Err(UnknownJob)
    ensures !Strings.IsTrimBlank(jobId) && Strings.Trim(jobId) in s.jobs && s.jobs[Strings.Trim(jobId)].status == Completed ==>
      r == Ok(s)
    ensures !Strings.IsTrimBlank(jobId) && Strings.Trim(jobId) in s.jobs && s.jobs[Strings.Trim(jobId)].status == Assigned ==>
      var jid := Strings.Trim(jobId);
      var m := s.jobs[jid].machine;
      && (m !in s.machines <==> r == Err(MissingMachine))
      && (m in s.machines ==>
            && r.Ok?
            && r.value.jobs == s.jobs[jid := Job(m, Completed)]
            && r.value.machines.Keys == s.machines.Keys
            && r.value.machines[m].finished == s.machines[m].finished + 1
            && r.value.machines[m].unfinished == (if s.machines[m].unfinished > 0 then s.machines[m].unfinished - 1 else 0)
            && r.value.machines[m].caps == s.machines[m].caps
            && (forall id :: id in s.machines && id != m ==> r.value.machines[id] == s.machines[id])
            && r.value.index == s.index)
  {
    var jid := Strings.Trim(jobId);
    if jid == [] then Err(BlankId)
    else if jid !in s.jobs then Err(UnknownJob)
    else
      var job := s.jobs[jid];
      if job.status == Completed then Ok(s)
      else if job.machine !in s.machines then Err(MissingMachine)
      else
        Ok(AfterCompletion(s, jid, job.machine))
  }

  /** On a valid scheduler `jobCompleted` never meets a missing machine: it succeeds exactly for the known jobs. */
  lemma CompleteSucceedsOnKnownJobs(s: Scheduler, jobId: string)
    requires JobsOk(s)
    ensures Complete(s, jobId).Ok? <==> Strings.Trim(jobId) in s.jobs
  {
    var jid := Strings.Trim(jobId);
    if jid in s.jobs {
      assert jid != [] && s.jobs[jid].machine in s.machines;
    }
  }

  /** On a valid scheduler the unfinished counter of a completed job's machine drops by exactly one. */
  lemma CompleteMovesOneJob(s: Scheduler, jobId: string)
    requires JobsOk(s) && CountsOk(s)
    requires Strings.Trim(jobId) in s.jobs && s.jobs[Strings.Trim(jobId)].status == Assigned
    ensures var m := s.jobs[Strings.Trim(jobId)].machine;
            && Complete(s, jobId).Ok?
            && Complete(s, jobId).value.machines[m].unfinished + 1 == s.machines[m].unfinished
            && Complete(s, jobId).value.machines[m].finished == s.machines[m].finished + 1
  {
    var jid := Strings.Trim(jobId);
    assert jid != [];
    AssignedJobKeepsCounterPositive(s, jid);
  }

  /** `jobCompleted` keeps the scheduler valid. */
  lemma CompletePreservesValid(s: Scheduler, jobId: string)
    requires Valid(s)
    ensures Complete(s, jobId).Ok? ==> Valid(Complete(s, jobId).value)
  {
    var jid := Strings.Trim(jobId);
    if jid in s.jobs && s.jobs[jid].status == Assigned {
      var m := s.jobs[jid].machine;
      AssignedJobKeepsCounterPositive(s, jid);
      CompleteKeepsValid(s, jid, m);
      assert jid != [] && Complete(s, jobId) == Ok(AfterCompletion(s, jid, m));
    } else if jid in s.jobs {
      assert Complete(s, jobId) == Ok(s);
    }
  }

  lemma CompleteKeepsValid(s: Scheduler, jid: string, m: string)
    requires Valid(s)
    requires jid in s.jobs && s.jobs[jid] == Job(m, Assigned) && m in s.machines
    requires s.machines[m].unfinished > 0
    ensures Valid(AfterCompletion(s, jid, m))
  {
    var t := AfterCompletion(s, jid, m);
    assert IdsOk(t) && JobsOk(t);
    SameCapsKeepIndex(s, t);
    CompleteKeepsCounts(s, jid, m);
  }

  /** The index stays exact when no machine's capabilities change. */
  lemma SameCapsKeepIndex(s: Scheduler, t: Scheduler)
    requires IndexSound(s) && IndexComplete(s)
    requires t.index == s.index && t.machines.Keys == s.machines.Keys
    requires forall id :: id in t.machines ==> t.machines[id].caps == s.machines[id].caps
    ensures IndexSound(t) && IndexComplete(t)
  {
  }

  lemma CompleteKeepsCounts(s: Scheduler, jid: string, m: string)
    requires CountsOk(s)
    requires jid in s.jobs && s.jobs[jid] == Job(m, Assigned) && m in s.machines
    requires s.machines[m].unfinished > 0
    ensures CountsOk(AfterCompletion(s, jid, m))
  {
    var t := AfterCompletion(s, jid, m);
    forall id | id in t.machines
      ensures t.machines[id].unfinished == |AssignedOn(t.jobs, id)|
      ensures t.machines[id].finished == |CompletedOn(t.jobs, id)|
    {
      CountsAfterCompletion(s.jobs, jid, m, id);
    }
  }

  // ---------------------------------------------------------------------------
  // Properties across calls
  // ---------------------------------------------------------------------------

  /** Assigning the same job id again returns the same machine and changes nothing. */
  lemma AssignIdempotent(s: Scheduler, jobId: string, required: seq<string>, criteria: int,
                         required2: seq<string>, criteria2: int)
    requires Valid(s)
    requires Assign(s, jobId, required, criteria).Ok?
    requires Assign(s, jobId, required, criteria).value.1 != ""
    ensures var (t, m) := Assign(s, jobId, required, criteria).value;
            Valid(t) && Assign(t, jobId, required2, criteria2) == Ok((t, m))
  {
    AssignPreservesValid(s, jobId, required, criteria);
  }

  /**
   * A job that found no machine was not recorded: after adding a machine that
   * offers what it needs, the same job id is placed.
   */
  lemma RetryAfterUnplaceable(s: Scheduler, jobId: string, required: seq<string>, criteria: int,
                              machineId: string, caps: seq<string>)
    requires Valid(s)
    requires Assign(s, jobId, required, criteria) == Ok((s, ""))
    requires AddMachine(s, machineId, caps).Ok?
    requires NormalizeCaps(required) <= NormalizeCaps(caps)
    ensures var t := AddMachine(s, machineId, caps).value;
            Valid(t) && Assign(t, jobId, required, criteria).Ok? && Assign(t, jobId, required, criteria).value.1 != ""
  {
    AddMachinePreservesValid(s, machineId, caps);
    var t := AddMachine(s, machineId, caps).value;
    var jid := Strings.Trim(jobId);
    var id := Strings.Trim(machineId);
    RecordedJobHasMachine(s, jid);
    assert jid !in s.jobs;
    assert id in t.machines && NormalizeCaps(required) <= t.machines[id].caps;
    assert jid != [] && jid !in t.jobs;
    var (t', m) := PlaceNew(t, jid, NormalizeCaps(required), criteria);
    assert m != "";
  }

  /** Every recorded job names a real machine, so its answer is never "". */
  lemma RecordedJobHasMachine(s: Scheduler, jid: string)
    requires Valid(s)
    ensures jid in s.jobs ==> s.jobs[jid].machine in s.machines && s.jobs[jid].machine != ""
  {
  }

  /** A job that is still assigned keeps its machine's unfinished counter positive. */
  lemma AssignedJobKeepsCounterPositive(s: Scheduler, jid: string)
    requires JobsOk(s) && CountsOk(s)
    requires jid in s.jobs && s.jobs[jid].status == Assigned
    ensures s.jobs[jid].machine in s.machines
    ensures s.machines[s.jobs[jid].machine].unfinished > 0
  {
    assert jid in AssignedOn(s.jobs, s.jobs[jid].machine);
  }
}
