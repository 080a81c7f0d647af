/** The resumable campaign: a manifest of pinned settings and recorded results that survives from
    one invocation to the next, and the skip, adopt, run and finalize steps that extend it. */
module Campaign {
  import opened Components
  import opened Options
  import opened Records
  import opened Sifting
  import opened Splitter

  // ----- which tasks count as done

  /** The number of numeric trials a completed record needs; an attempt count of zero means one. */
  function Required(attempts: int): int {
    if attempts == 0 then 1 else attempts
  }

  predicate Accepts(r: Record, required: int) {
    r.status == Completed && r.task != "" && r.mean.Some? && |Numeric(r.trials)| >= required
  }

  function Accepted(list: seq<Record>, required: int): set<string> {
    set r | r in list && Accepts(r, required) :: r.task
  }

  // ----- steps of a run

  datatype Step =
    | Adopted(record: Record)
    | Finished(record: Record, ok: bool)

  /** A step concerns a task that is not done yet, and its record says what the step found. */
  predicate StepOk(list: seq<Record>, attempts: int, s: Step) {
    && s.record.task !in Accepted(list, Required(attempts))
    && (s.record.status == Completed ==> s.record.mean == Mean(s.record.trials))
    && match s
       case Adopted(r) => r.status == Completed && |Numeric(r.trials)| >= attempts
       case Finished(r, ok) =>
         && (ok <==> r.status == Completed)
         && (ok ==> r.mean.Some? && |Numeric(r.trials)| >= attempts)
  }

  predicate Legal(list: seq<Record>, attempts: int, steps: seq<Step>)
    decreases |steps|
  {
    steps == [] ||
    (StepOk(list, attempts, steps[0]) && Legal(Upsert(list, steps[0].record), attempts, steps[1..]))
  }

  function Replay(list: seq<Record>, steps: seq<Step>): seq<Record>
    decreases |steps|
  {
    if steps == [] then list else Replay(Upsert(list, steps[0].record), steps[1..])
  }

  lemma {:induction false} LegalSnoc(list: seq<Record>, attempts: int, steps: seq<Step>, s: Step)
    requires Legal(list, attempts, steps) && StepOk(Replay(list, steps), attempts, s)
    ensures Legal(list, attempts, steps + [s])
    ensures Replay(list, steps + [s]) == Upsert(Replay(list, steps), s.record)
    decreases |steps|
  {
    if steps == [] {
      assert [s][1..] == [];
    } else {
      LegalSnoc(Upsert(list, steps[0].record), attempts, steps[1..], s);
      assert (steps + [s])[1..] == steps[1..] + [s];
    }
  }

  /** A step removes no task from the accepted ones and adds at most its own. */
  lemma StepGrows(list: seq<Record>, attempts: int, s: Step)
    requires s.record.task !in Accepted(list, Required(attempts))
    ensures Accepted(list, Required(attempts)) <= Accepted(Upsert(list, s.record), Required(attempts))
    ensures Accepted(Upsert(list, s.record), Required(attempts)) <= Accepted(list, Required(attempts)) + {s.record.task}
  {
    var k, next := Required(attempts), Upsert(list, s.record);
    UpsertKeepsPositions(list, s.record);
    forall t | t in Accepted(list, k) ensures t in Accepted(next, k) {
      var r :| r in list && Accepts(r, k) && r.task == t;
      var i :| 0 <= i < |list| && list[i] == r;
      assert next[i] == r;
    }
  }

  /** Exactly when a step makes its task accepted. */
  lemma StepLands(list: seq<Record>, attempts: int, s: Step)
    requires StepOk(list, attempts, s)
    ensures s.record.task in Accepted(Upsert(list, s.record), Required(attempts)) <==>
            s.record.task != "" && s.record.status == Completed && Numeric(s.record.trials) != []
  {
    var r := s.record;
    UpsertKeepsPositions(list, r);
    if r.task in Accepted(Upsert(list, r), Required(attempts)) {
      var x :| x in Upsert(list, r) && Accepts(x, Required(attempts)) && x.task == r.task;
      assert x == r;
    }
  }

  /** A successful run always lands, unless its name is empty. */
  lemma SuccessLands(list: seq<Record>, attempts: int, s: Step)
    requires StepOk(list, attempts, s) && s.Finished? && s.ok
    ensures s.record.task in Accepted(Upsert(list, s.record), Required(attempts)) <==> s.record.task != ""
  {
    StepLands(list, attempts, s);
  }

  /** The empty name is a legal command-line task, and its success is never counted. */
  lemma EmptyNameMisses()
    ensures var trials := [Trial("a", Some(1.0), "")];
            var r := Record("", "run-001", Completed, Mean(trials), trials, Some(0), "");
            StepOk([], 1, Finished(r, true)) && Accepted(Upsert([], r), Required(1)) == {}
  {
    var trials := [Trial("a", Some(1.0), "")];
    assert trials[1..] == [];
    assert Numeric(trials) == [1.0];
  }

  /** With at least one attempt required, so does an adoption. */
  lemma AdoptionLands(list: seq<Record>, attempts: int, s: Step)
    requires StepOk(list, attempts, s) && s.Adopted? && attempts >= 1
    ensures s.record.task in Accepted(Upsert(list, s.record), Required(attempts)) <==> s.record.task != ""
  {
    StepLands(list, attempts, s);
  }

  /** Without that, a job with no numeric trial is adopted and still not accepted. */
  lemma AdoptionCanMiss()
    ensures var r := Record("t", "run-001", Completed, None, [Trial("a", None, "")], None, "");
            && StepOk([], 0, Adopted(r)) && Mean(r.trials) == r.mean
            && "t" !in Accepted(Upsert([], r), Required(0))
  {
    var r := Record("t", "run-001", Completed, None, [Trial("a", None, "")], None, "");
    assert r.trials[1..] == [];
    assert Numeric(r.trials) == [];
  }

  /** The accepted tasks never shrink over a whole history. */
  lemma {:induction false} AcceptedGrows(list: seq<Record>, attempts: int, steps: seq<Step>)
    requires Legal(list, attempts, steps)
    ensures Accepted(list, Required(attempts)) <= Accepted(Replay(list, steps), Required(attempts))
    decreases |steps|
  {
    if steps != [] {
      StepGrows(list, attempts, steps[0]);
      AcceptedGrows(Upsert(list, steps[0].record), attempts, steps[1..]);
    }
  }

  /** A task accepted at some point is not touched by any later step. */
  lemma {:induction false} AcceptedIsFinal(list: seq<Record>, attempts: int, steps: seq<Step>, i: nat, j: nat)
    requires Legal(list, attempts, steps) && i <= j < |steps|
    ensures steps[j].record.task !in Accepted(Replay(list, steps[..i]), Required(attempts))
    decreases |steps|
  {
    if i > 0 {
      AcceptedIsFinal(Upsert(list, steps[0].record), attempts, steps[1..], i - 1, j - 1);
      assert steps[..i][1..] == steps[1..][..i - 1];
    } else if j > 0 {
      AcceptedIsFinal(Upsert(list, steps[0].record), attempts, steps[1..], 0, j - 1);
      assert steps[1..][..0] == [];
      StepGrows(list, attempts, steps[0]);
    }
  }

  lemma {:induction false} LegalAt(list: seq<Record>, attempts: int, steps: seq<Step>, i: nat)
    requires Legal(list, attempts, steps) && i < |steps|
    ensures StepOk(Replay(list, steps[..i]), attempts, steps[i])
    ensures Replay(list, steps[..i + 1]) == Upsert(Replay(list, steps[..i]), steps[i].record)
    decreases |steps|
  {
    if i == 0 {
      assert steps[..1][1..] == [];
    } else {
      LegalAt(Upsert(list, steps[0].record), attempts, steps[1..], i - 1);
      assert steps[..i][1..] == steps[1..][..i - 1];
      assert steps[..i + 1][1..] == steps[1..][..i - 1 + 1];
    }
  }

  /** Hence a task is completed at most once: after a landing step no step concerns it again. */
  lemma CompletedOnce(list: seq<Record>, attempts: int, steps: seq<Step>, i: nat, j: nat)
    requires Legal(list, attempts, steps) && i < j < |steps|
    requires steps[i].record.task != "" && steps[i].record.status == Completed && Numeric(steps[i].record.trials) != []
    ensures steps[j].record.task != steps[i].record.task
  {
    LegalAt(list, attempts, steps, i);
    StepLands(Replay(list, steps[..i]), attempts, steps[i]);
    AcceptedIsFinal(list, attempts, steps, i + 1, j);
  }

  lemma {:induction false} ReplayKeepsUnique(list: seq<Record>, steps: seq<Step>)
    requires UniqueKeys(list)
    ensures UniqueKeys(Replay(list, steps))
    decreases |steps|
  {
    if steps != [] {
      UpsertKeepsUnique(list, steps[0].record);
      ReplayKeepsUnique(Upsert(list, steps[0].record), steps[1..]);
    }
  }

  // ----- task list

  /** The file lines that are neither blank nor comments, stripped. */
  function Usable(fileLines: seq<string>): seq<string> {
    if fileLines == [] then []
    else
      var n := |fileLines| - 1;
      var line := Strip(fileLines[n]);
      Usable(fileLines[..n]) + if line == [] || line[0] == '#' then [] else [line]
  }

  /** Each file line as a task name, if it is one. */
  ghost function FileTasks(fileLines: seq<string>): seq<Option<string>> {
    seq(|fileLines|, i requires 0 <= i < |fileLines| =>
      if Strip(fileLines[i]) == "" || Strip(fileLines[i])[0] == '#' then None else Some(Strip(fileLines[i])))
  }

  /** The usable lines are, in file order, all those that leave something other than a comment when stripped. */
  lemma {:induction false} UsableMeaning(fileLines: seq<string>)
    ensures Usable(fileLines) == Values(FileTasks(fileLines))
  {
    if fileLines != [] {
      var n := |fileLines| - 1;
      var line := Strip(fileLines[n]);
      var last := if line == "" || line[0] == '#' then None else Some(line);
      assert FileTasks(fileLines) == FileTasks(fileLines[..n]) + [last];
      ValuesSnoc(FileTasks(fileLines[..n]), last);
      UsableMeaning(fileLines[..n]);
    }
  }

  /** Each element where it occurs first. */
  function FirstMentions(s: seq<string>): seq<string> {
    if s == [] then []
    else
      var n := |s| - 1;
      FirstMentions(s[..n]) + if s[n] in s[..n] then [] else [s[n]]
  }

  /** Each element, unless it stands earlier too. */
  ghost function Mentions(s: seq<string>): seq<Option<string>> {
    seq(|s|, i requires 0 <= i < |s| => if exists j :: 0 <= j < i && s[j] == s[i] then None else Some(s[i]))
  }

  /** First mentions keep the order of the first positions. */
  lemma {:induction false} FirstMentionsMeaning(s: seq<string>)
    ensures FirstMentions(s) == Values(Mentions(s))
  {
    if s != [] {
      var n := |s| - 1;
      var last := if s[n] in s[..n] then None else Some(s[n]);
      assert Mentions(s) == Mentions(s[..n]) + [last];
      ValuesSnoc(Mentions(s[..n]), last);
      FirstMentionsMeaning(s[..n]);
    }
  }

  lemma {:induction false} FirstMentionsDistinct(s: seq<string>)
    ensures Distinct(FirstMentions(s))
    ensures forall t :: t in FirstMentions(s) <==> t in s
  {
    if s != [] {
      var n := |s| - 1;
      FirstMentionsDistinct(s[..n]);
      assert s == s[..n] + [s[n]];
    }
  }

  lemma FirstMentionsEmpty(s: seq<string>)
    ensures FirstMentions(s) == [] <==> s == []
  {
    FirstMentionsDistinct(s);
    if s != [] {
      assert s[0] in FirstMentions(s);
    }
  }

  /** Names from the command line, then from the file, each kept where it is mentioned first. */
  method LoadTasks(given: seq<string>, fileLines: seq<string>) returns (deduped: seq<string>)
    ensures deduped == FirstMentions(given + Usable(fileLines))
  {
    var tasks := given;
    for i := 0 to |fileLines|
      invariant tasks == given + Usable(fileLines[..i])
    {
      var line := Strip(fileLines[i]);
      assert fileLines[..i + 1][..i] == fileLines[..i];
      if line != [] && line[0] != '#' {
        tasks := tasks + [line];
      }
    }
    assert fileLines[..|fileLines|] == fileLines;
    deduped := [];
    var seen: set<string> := {};
    for i := 0 to |tasks|
      invariant deduped == FirstMentions(tasks[..i])
      invariant forall t :: t in seen <==> t in tasks[..i]
    {
      assert tasks[..i + 1] == tasks[..i] + [tasks[i]];
      assert tasks[..i + 1][..i] == tasks[..i];
      if tasks[i] !in seen {
        seen := seen + {tasks[i]};
        deduped := deduped + [tasks[i]];
      }
    }
    assert tasks[..|tasks|] == tasks;
  }

  // ----- settings

  datatype Setting = Text(text: string) | Number(n: int) | Factor(x: real) | Null

  const PINNED_KEYS := [
    "runner_script", "model", "reasoning_effort", "service_tier", "binary_path", "binary_sha256",
    "openai_auth_path", "dataset", "path", "attempts_per_task", "n_concurrent", "timeout_multiplier"]

  const ATTEMPTS := "attempts_per_task"

  function Get(settings: map<string, Setting>, key: string): Setting {
    if key in settings then settings[key] else Null
  }

  predicate Compatible(a: map<string, Setting>, b: map<string, Setting>) {
    forall k :: k in PINNED_KEYS ==> Get(a, k) == Get(b, k)
  }

  /** The twelve settings that may not change within a campaign. */
  ghost predicate SamePins(a: map<string, Setting>, b: map<string, Setting>) {
    && Get(a, "runner_script") == Get(b, "runner_script")
    && Get(a, "model") == Get(b, "model")
    && Get(a, "reasoning_effort") == Get(b, "reasoning_effort")
    && Get(a, "service_tier") == Get(b, "service_tier")
    && Get(a, "binary_path") == Get(b, "binary_path")
    && Get(a, "binary_sha256") == Get(b, "binary_sha256")
    && Get(a, "openai_auth_path") == Get(b, "openai_auth_path")
    && Get(a, "dataset") == Get(b, "dataset")
    && Get(a, "path") == Get(b, "path")
    && Get(a, "attempts_per_task") == Get(b, "attempts_per_task")
    && Get(a, "n_concurrent") == Get(b, "n_concurrent")
    && Get(a, "timeout_multiplier") == Get(b, "timeout_multiplier")
  }

  lemma PinnedKeys()
    ensures forall k :: k in PINNED_KEYS <==>
              || k == "runner_script" || k == "model" || k == "reasoning_effort" || k == "service_tier"
              || k == "binary_path" || k == "binary_sha256" || k == "openai_auth_path" || k == "dataset"
              || k == "path" || k == "attempts_per_task" || k == "n_concurrent" || k == "timeout_multiplier"
  {
    var p := PINNED_KEYS;
    assert p[0] == "runner_script" && p[1] == "model" && p[2] == "reasoning_effort" && p[3] == "service_tier";
    assert p[4] == "binary_path" && p[5] == "binary_sha256" && p[6] == "openai_auth_path" && p[7] == "dataset";
    assert p[8] == "path" && p[9] == "attempts_per_task" && p[10] == "n_concurrent" && p[11] == "timeout_multiplier";
  }

  lemma CompatibleIff(a: map<string, Setting>, b: map<string, Setting>)
    ensures Compatible(a, b) <==> SamePins(a, b)
  {
    PinnedKeys();
  }

  function AttemptsOf(settings: map<string, Setting>): int {
    match Get(settings, ATTEMPTS)
    case Number(n) => n
    case _ => 0
  }

  // ----- jobs on disk

  /** A job directory: whether it has a job-level result, and its per-trial results. */
  datatype JobDir = JobDir(hasResult: bool, trials: seq<Trial>, details: string)

  function AdoptedRecord(task: string, job: string, dir: JobDir): Record {
    Record(task, job, Completed, Mean(dir.trials), dir.trials, None, dir.details)
  }

  predicate Adoptable(dir: JobDir, attempts: int) {
    dir.hasResult && dir.trials != [] && |Numeric(dir.trials)| >= attempts
  }

  predicate NoneAdoptable(dirs: map<string, JobDir>, attempts: int) {
    forall n :: n in dirs ==> !Adoptable(dirs[n], attempts)
  }

  // ----- what a success is worth to the next invocation

  /** A task that is neither accepted nor has a job directory to adopt. */
  predicate NeedsRun(list: seq<Record>, attempts: int, jobs: map<string, map<string, JobDir>>, task: string) {
    task !in Accepted(list, Required(attempts)) && (task in jobs ==> NoneAdoptable(jobs[task], attempts))
  }

  /** What has landed once is accepted for the rest of the history. */
  lemma {:induction false} LandedStays(list: seq<Record>, attempts: int, steps: seq<Step>, i: nat)
    requires Legal(list, attempts, steps) && i < |steps|
    requires steps[i].record.task != "" && steps[i].record.status == Completed && Numeric(steps[i].record.trials) != []
    ensures steps[i].record.task in Accepted(Replay(list, steps), Required(attempts))
    decreases |steps|
  {
    if i == 0 {
      StepLands(list, attempts, steps[0]);
      AcceptedGrows(Upsert(list, steps[0].record), attempts, steps[1..]);
    } else {
      LandedStays(Upsert(list, steps[0].record), attempts, steps[1..], i - 1);
    }
  }

  /** Wherever a legal history has a success, whatever follows it and whatever happens to the job
      directories, its task is run again exactly if it is the empty name and nothing is left to adopt. */
  lemma SuccessRerunIff(list: seq<Record>, attempts: int, steps: seq<Step>, i: nat,
                        jobs: map<string, map<string, JobDir>>)
    requires Legal(list, attempts, steps) && i < |steps| && steps[i].Finished? && steps[i].ok
    ensures var task := steps[i].record.task;
            NeedsRun(Replay(list, steps), attempts, jobs, task) <==>
            task == "" && (task in jobs ==> NoneAdoptable(jobs[task], attempts))
  {
    if steps[i].record.task != "" {
      LegalAt(list, attempts, steps, i);
      LandedStays(list, attempts, steps, i);
    }
  }

  /** Under the empty name adopting is a legal step time and again: it never makes the name accepted,
      and each time the record of the job is replaced by one without a return code. */
  lemma EmptyNameAdoptedAgain(list: seq<Record>, attempts: int, job: string, dir: JobDir)
    requires UniqueKeys(list) && Adoptable(dir, attempts)
    ensures var a := AdoptedRecord("", job, dir);
            && StepOk(list, attempts, Adopted(a))
            && "" !in Accepted(Upsert(list, a), Required(attempts))
            && (forall r :: r in Upsert(list, a) && KeyOf(r) == ("", job) ==> r == a && r.returnCode == None)
  {
    var a := AdoptedRecord("", job, dir);
    UpsertKeepsUnique(list, a);
    UpsertKeepsPositions(list, a);
  }

  /** The tasks that have to be run, where they stand in the list. */
  ghost function Wanted(tasks: seq<string>, list: seq<Record>, attempts: int, jobs: map<string, map<string, JobDir>>)
    : seq<Option<string>>
  {
    seq(|tasks|, i requires 0 <= i < |tasks| =>
      if NeedsRun(list, attempts, jobs, tasks[i]) then Some(tasks[i]) else None)
  }

  lemma NothingWanted(list: seq<Record>, attempts: int, jobs: map<string, map<string, JobDir>>)
    ensures Values(Wanted([], list, attempts, jobs)) == []
  {
  }

  lemma WantedSnoc(tasks: seq<string>, task: string, list: seq<Record>, attempts: int,
                   jobs: map<string, map<string, JobDir>>)
    ensures Values(Wanted(tasks + [task], list, attempts, jobs)) ==
            Values(Wanted(tasks, list, attempts, jobs)) + if NeedsRun(list, attempts, jobs, task) then [task] else []
  {
    hide NeedsRun;
    var last := if NeedsRun(list, attempts, jobs, task) then Some(task) else None;
    assert Wanted(tasks + [task], list, attempts, jobs) == Wanted(tasks, list, attempts, jobs) + [last];
    ValuesSnoc(Wanted(tasks, list, attempts, jobs), last);
  }

  function Digits(n: nat): string {
    (if n < 10 then "" else Digits(n / 10)) + [(n % 10) as char + '0']
  }

  function Pad(d: string): string {
    (if |d| == 1 then "00" else if |d| == 2 then "0" else "") + d
  }

  function JobName(n: nat): string {
    "run-" + Pad(Digits(n))
  }

  lemma {:induction false} DigitsNonEmpty(n: nat)
    ensures Digits(n) != [] && (Digits(n)[0] == '0' <==> n == 0)
  {
    if n >= 10 {
      DigitsNonEmpty(n / 10);
    }
  }

  lemma {:induction false} DigitsInjective(m: nat, n: nat)
    requires Digits(m) == Digits(n)
    ensures m == n
  {
    var a, b := Digits(m), Digits(n);
    DigitsNonEmpty(m / 10);
    DigitsNonEmpty(n / 10);
    assert a[|a| - 1] == (m % 10) as char + '0' && b[|b| - 1] == (n % 10) as char + '0';
    assert m % 10 == n % 10;
    if m >= 10 {
      assert n >= 10;
      assert a[..|a| - 1] == Digits(m / 10) && b[..|b| - 1] == Digits(n / 10);
      DigitsInjective(m / 10, n / 10);
    }
  }

  lemma SamePadding(d: string, e: string)
    requires d != [] && e != [] && d[0] != '0' && e[0] != '0' && Pad(d) == Pad(e)
    ensures d == e
  {
    var p, q := Pad(d), Pad(e);
    if |d| == 1 {
      assert p[1] == '0' && p[0] == '0';
      assert |e| == 1;
      assert d == p[2..] && e == q[2..];
    } else if |d| == 2 {
      assert p[0] == '0' && p[1] == d[0];
      assert d == p[1..] && e == q[1..];
    } else {
      assert p[0] == d[0];
      assert d == p && e == q;
    }
  }

  lemma JobNameInjective(m: nat, n: nat)
    requires m > 0 && n > 0 && JobName(m) == JobName(n)
    ensures m == n
  {
    var a, b := JobName(m), JobName(n);
    DigitsNonEmpty(m);
    DigitsNonEmpty(n);
    assert a[4..] == b[4..];
    SamePadding(Digits(m), Digits(n));
    DigitsInjective(m, n);
  }

  /** What a string of digits denotes. */
  function Decimal(d: string): int {
    if d == "" then 0 else 10 * Decimal(d[..|d| - 1]) + (d[|d| - 1] as int - '0' as int)
  }

  predicate AllDigits(d: string) {
    forall i :: 0 <= i < |d| ==> '0' <= d[i] <= '9'
  }

  lemma DecimalSnoc(d: string, c: char)
    ensures Decimal(d + [c]) == 10 * Decimal(d) + (c as int - '0' as int)
  {
    assert (d + [c])[..|d|] == d;
  }

  lemma {:induction false} DigitsMeaning(n: nat)
    ensures Decimal(Digits(n)) == n && AllDigits(Digits(n))
  {
    var c := (n % 10) as char + '0';
    var front := if n < 10 then "" else Digits(n / 10);
    assert Digits(n) == front + [c];
    if n >= 10 {
      DigitsMeaning(n / 10);
    }
    hide Digits;
    DecimalSnoc(front, c);
  }

  lemma {:induction false} DecimalZero(d: string)
    ensures Decimal("0" + d) == Decimal(d)
  {
    if d == "" {
      assert "0" + d == "" + ['0'];
      DecimalSnoc("", '0');
    } else {
      var n := |d| - 1;
      DecimalZero(d[..n]);
      DecimalSnoc("0" + d[..n], d[n]);
      assert "0" + d[..n] + [d[n]] == "0" + d;
    }
  }

  /** A job name is the prefix and the number in decimal, with zeros in front up to three digits. */
  lemma JobNameMeaning(n: nat)
    ensures var name := JobName(n);
            && |name| >= 7 && name[..4] == "run-"
            && AllDigits(name[4..]) && Decimal(name[4..]) == n
            && (|name| > 7 ==> name[4] != '0')
  {
    var d := Digits(n);
    DigitsMeaning(n);
    DigitsNonEmpty(n);
    assert JobName(n)[4..] == Pad(d);
    if |d| == 1 {
      assert Pad(d) == "0" + ("0" + d);
      DecimalZero("0" + d);
      DecimalZero(d);
    } else if |d| == 2 {
      DecimalZero(d);
    } else {
      assert Pad(d) == d;
    }
  }

  /** The names of the first `n` jobs. */
  function FirstNames(n: nat): set<string> {
    set k: nat | 1 <= k <= n :: JobName(k)
  }

  lemma {:induction false} CountNames(n: nat)
    ensures |FirstNames(n)| == n
  {
    if n == 0 {
      assert FirstNames(0) == {};
    } else {
      CountNames(n - 1);
      forall k: nat | 1 <= k <= n - 1 ensures JobName(k) != JobName(n) {
        if JobName(k) == JobName(n) {
          JobNameInjective(k, n);
        }
      }
      assert FirstNames(n) == FirstNames(n - 1) + {JobName(n)};
    }
  }

  /** The next `k` jobs each find their name unused, every one adding its directory. */
  ghost predicate FreshFor(dirs: set<string>, k: nat)
    decreases k
  {
    k == 0 ||
    (JobName(|dirs| + 1) !in dirs && FreshFor(dirs + {JobName(|dirs| + 1)}, k - 1))
  }

  /** No directory bears the name of a job yet to come. */
  ghost predicate NoLaterName(dirs: set<string>) {
    forall m: nat :: m > |dirs| ==> JobName(m) !in dirs
  }

  lemma {:induction false} NoLaterNameIsFresh(dirs: set<string>, k: nat)
    requires NoLaterName(dirs)
    ensures FreshFor(dirs, k)
    decreases k
  {
    if k > 0 {
      var next := dirs + {JobName(|dirs| + 1)};
      assert |next| == |dirs| + 1;
      forall m: nat | m > |next| ensures JobName(m) !in next {
        if JobName(m) == JobName(|dirs| + 1) {
          JobNameInjective(m, |dirs| + 1);
        }
      }
      NoLaterNameIsFresh(next, k - 1);
    }
  }

  lemma {:induction false} LaterNameCollides(dirs: set<string>, m: nat)
    requires m > |dirs| && JobName(m) in dirs
    ensures !FreshFor(dirs, m - |dirs|)
    decreases m - |dirs|
  {
    if JobName(|dirs| + 1) !in dirs {
      var next := dirs + {JobName(|dirs| + 1)};
      assert |next| == |dirs| + 1;
      LaterNameCollides(next, m);
    }
  }

  /** Job names stay fresh for good exactly when no existing directory bears a later job's name. */
  lemma FreshForGoodIff(dirs: set<string>)
    ensures (forall k: nat :: FreshFor(dirs, k)) <==> NoLaterName(dirs)
  {
    if NoLaterName(dirs) {
      forall k: nat ensures FreshFor(dirs, k) {
        NoLaterNameIsFresh(dirs, k);
      }
    } else {
      var m: nat :| m > |dirs| && JobName(m) in dirs;
      LaterNameCollides(dirs, m);
    }
  }

  /** So they do while no job directory has been deleted ... */
  lemma NextJobIsFresh(dirs: set<string>, n: nat)
    requires dirs == FirstNames(n)
    ensures |dirs| == n && forall k: nat :: FreshFor(dirs, k)
  {
    CountNames(n);
    forall m: nat | m > n ensures JobName(m) !in dirs {
      if JobName(m) in dirs {
        var k: nat :| 1 <= k <= n && JobName(k) == JobName(m);
        JobNameInjective(k, m);
      }
    }
    FreshForGoodIff(dirs);
  }

  /** ... but with the first of two directories gone, the next job takes the name of the second. */
  lemma NextJobCanCollide()
    ensures !FreshFor({JobName(2)}, 1)
  {
    assert |{JobName(2)}| == 1;
    LaterNameCollides({JobName(2)}, 2);
  }

  /** The order in which job directories are sorted. */
  predicate NameLess(a: string, b: string) {
    b != [] && (a == [] || a[0] < b[0] || (a[0] == b[0] && NameLess(a[1..], b[1..])))
  }

  lemma {:induction false} NameLessTotal(a: string, b: string)
    ensures a == b || NameLess(a, b) || NameLess(b, a)
  {
    if a != [] && b != [] && a[0] == b[0] {
      NameLessTotal(a[1..], b[1..]);
      assert a == [a[0]] + a[1..] && b == [b[0]] + b[1..];
    }
  }

  lemma {:induction false} NameLessTrans(a: string, b: string, c: string)
    requires NameLess(a, b) && NameLess(b, c)
    ensures NameLess(a, c)
  {
    if a != [] && a[0] == b[0] == c[0] {
      NameLessTrans(a[1..], b[1..], c[1..]);
    }
  }

  /** The names agree up to a place where the first one ends or has the smaller character. */
  ghost predicate SmallerAt(a: string, b: string, k: nat) {
    && k <= |a| && k < |b| && a[..k] == b[..k]
    && (k == |a| || a[k] < b[k])
  }

  lemma SameHead(a: string, b: string, k: nat)
    requires 0 < k <= |a| && k <= |b| && a[..k] == b[..k]
    ensures a[0] == b[0]
  {
    assert a[..k][0] == b[..k][0];
  }

  lemma {:induction false} NameLessIff(a: string, b: string)
    ensures NameLess(a, b) <==> exists k: nat :: SmallerAt(a, b, k)
  {
    if a == [] || b == [] || a[0] != b[0] {
      if NameLess(a, b) {
        assert SmallerAt(a, b, 0);
      }
      forall k: nat | SmallerAt(a, b, k) ensures NameLess(a, b) {
        if k > 0 {
          SameHead(a, b, k);
        }
      }
    } else {
      NameLessIff(a[1..], b[1..]);
      if NameLess(a, b) {
        var k: nat :| SmallerAt(a[1..], b[1..], k);
        assert a[..k + 1] == [a[0]] + a[1..][..k] && b[..k + 1] == [b[0]] + b[1..][..k];
        assert SmallerAt(a, b, k + 1);
      }
      forall k: nat | SmallerAt(a, b, k) ensures NameLess(a[1..], b[1..]) {
        assert k > 0;
        assert a[1..][..k - 1] == a[..k][1..] && b[1..][..k - 1] == b[..k][1..];
        assert SmallerAt(a[1..], b[1..], k - 1);
      }
    }
  }

  // ----- when the last job by name is the newest

  lemma {:induction false} NameLessPrefix(p: string, a: string, b: string)
    ensures NameLess(p + a, p + b) <==> NameLess(a, b)
  {
    if p == "" {
      assert p + a == a && p + b == b;
    } else {
      NameLessPrefix(p[1..], a, b);
      assert (p + a)[1..] == p[1..] + a && (p + b)[1..] == p[1..] + b;
    }
  }

  lemma {:induction false} NameLessIrreflexive(a: string)
    ensures !NameLess(a, a)
  {
    if a != [] {
      NameLessIrreflexive(a[1..]);
    }
  }

  lemma {:induction false} NameLessSnoc(a: string, x: char, b: string, y: char)
    requires |a| == |b|
    ensures NameLess(a + [x], b + [y]) <==> NameLess(a, b) || (a == b && x < y)
  {
    if a != [] {
      assert (a + [x])[1..] == a[1..] + [x] && (b + [y])[1..] == b[1..] + [y];
      NameLessSnoc(a[1..], x, b[1..], y);
      assert a == b <==> a[0] == b[0] && a[1..] == b[1..] by {
        assert a == [a[0]] + a[1..] && b == [b[0]] + b[1..];
      }
    } else {
      assert [x][1..] == [] && [y][1..] == [];
    }
  }

  lemma {:induction false} SameWidth(a: string, b: string)
    requires |a| == |b| && AllDigits(a) && AllDigits(b)
    ensures NameLess(a, b) <==> Decimal(a) < Decimal(b)
    ensures a == b <==> Decimal(a) == Decimal(b)
  {
    if a != [] {
      var n := |a| - 1;
      SameWidth(a[..n], b[..n]);
      NameLessSnoc(a[..n], a[n], b[..n], b[n]);
      assert a == a[..n] + [a[n]] && b == b[..n] + [b[n]];
    }
  }

  lemma {:induction false} Shorter(a: string, b: string)
    requires |a| < |b|
    ensures NameLess(a, b) <==> NameLess(a, b[..|a|]) || a == b[..|a|]
  {
    if a != [] {
      Shorter(a[1..], b[1..]);
      assert b[..|a|][1..] == b[1..][..|a| - 1];
      assert a == b[..|a|] <==> a[0] == b[0] && a[1..] == b[1..][..|a| - 1] by {
        assert a == [a[0]] + a[1..] && b[..|a|] == [b[0]] + b[1..][..|a| - 1];
      }
    }
  }

  /** `n` without its last `k` digits. */
  function WithoutLast(n: nat, k: nat): nat
    decreases k
  {
    if k == 0 then n else WithoutLast(n / 10, k - 1)
  }

  lemma {:induction false} DecimalOfPrefix(d: string, k: nat)
    requires AllDigits(d) && k <= |d|
    ensures Decimal(d) >= 0 && Decimal(d[..|d| - k]) == WithoutLast(Decimal(d), k)
    decreases |d|
  {
    if d != "" {
      var n := |d| - 1;
      DecimalOfPrefix(d[..n], if k == 0 then 0 else k - 1);
      if k > 0 {
        assert d[..n][..n - (k - 1)] == d[..|d| - k];
        assert Decimal(d) / 10 == Decimal(d[..n]);
      } else {
        assert d[..|d|] == d;
      }
    }
  }

  lemma {:induction false} DigitsGrow(m: nat, n: nat)
    requires m <= n
    ensures |Digits(m)| <= |Digits(n)|
  {
    if m >= 10 {
      DigitsGrow(m / 10, n / 10);
    }
  }

  lemma JobNamesGrow(m: nat, n: nat)
    requires m <= n
    ensures |JobName(m)| <= |JobName(n)|
  {
    hide Digits;
    DigitsGrow(m, n);
    DigitsNonEmpty(m);
  }

  /** An older job comes first by name if the names are equally long, and otherwise exactly if its number
      is at most that of the newer one without the digits it has more. */
  lemma OlderFirstIff(m: nat, n: nat)
    requires 0 < m < n
    ensures |JobName(m)| <= |JobName(n)|
    ensures NameLess(JobName(m), JobName(n)) <==>
            |JobName(m)| == |JobName(n)| || m <= WithoutLast(n, |JobName(n)| - |JobName(m)|)
  {
    hide JobName, Pad, Digits, NameLess, Decimal, WithoutLast;
    JobNameMeaning(m);
    JobNameMeaning(n);
    var a, b := JobName(m)[4..], JobName(n)[4..];
    JobNamesGrow(m, n);
    assert JobName(m) == "run-" + a && JobName(n) == "run-" + b;
    NameLessPrefix("run-", a, b);
    if |a| == |b| {
      SameWidth(a, b);
    } else {
      Shorter(a, b);
      SameWidth(a, b[..|a|]);
      DecimalOfPrefix(b, |b| - |a|);
    }
  }

  /** So the thousandth job is not the last by name. */
  lemma ThousandthIsNotLast()
    ensures NameLess(JobName(1000), JobName(999))
  {
    assert Digits(999) == "999" && Digits(1000) == "1000";
    NameLessPrefix("run-", "1000", "999");
  }

  /** The last name in sorted order. */
  method LastName(names: set<string>) returns (last: string)
    requires names != {}
    ensures last in names && forall n :: n in names && n != last ==> NameLess(n, last)
  {
    last :| last in names;
    var todo := names - {last};
    while todo != {}
      invariant todo <= names && last in names && last !in todo
      invariant forall n :: n in names && n !in todo && n != last ==> NameLess(n, last)
      decreases todo
    {
      var n :| n in todo;
      NameLessTotal(n, last);
      if NameLess(last, n) {
        forall m | m in names && m !in todo && m != last ensures NameLess(m, n) {
          NameLessTrans(m, last, n);
        }
        last := n;
      }
      todo := todo - {n};
    }
  }

  /** The last job, by name, that can be adopted. */
  ghost predicate LastAdoptable(dirs: map<string, JobDir>, attempts: int, name: string) {
    && name in dirs && Adoptable(dirs[name], attempts)
    && forall n :: n in dirs && n != name && Adoptable(dirs[n], attempts) ==> NameLess(n, name)
  }

  /** Every pending entry has the next free job name of its own directory. */
  ghost predicate Named(pending: seq<string>, names: map<string, string>, jobs: map<string, map<string, JobDir>>) {
    forall t :: t in pending ==> t in names && t in jobs && names[t] == JobName(|jobs[t]| + 1)
  }

  lemma NothingPending(names: map<string, string>, jobs: map<string, map<string, JobDir>>)
    ensures Named([], names, jobs)
  {
  }

  lemma NamedStays(pending: seq<string>, names: map<string, string>,
                   before: map<string, map<string, JobDir>>, after: map<string, map<string, JobDir>>)
    requires Named(pending, names, before)
    requires forall t :: t in before ==> t in after && after[t] == before[t]
    ensures Named(pending, names, after)
  {
  }

  lemma NamedSnoc(pending: seq<string>, names: map<string, string>, jobs: map<string, map<string, JobDir>>, t: string)
    requires Named(pending, names, jobs) && t in jobs && t !in pending
    ensures Named(pending + [t], names[t := JobName(|jobs[t]| + 1)], jobs)
  {
  }

  datatype Manifest = Manifest(settings: map<string, Setting>, tasksRun: seq<Record>)

  /** The steps finish runs under the given job names. */
  ghost predicate RunsOf(steps: seq<Step>, names: map<string, string>) {
    forall i :: 0 <= i < |steps| ==>
      steps[i].Finished? && steps[i].record.task in names && steps[i].record.job == names[steps[i].record.task]
  }

  ghost predicate AllOk(steps: seq<Step>) {
    forall i :: 0 <= i < |steps| ==> steps[i].Finished? && steps[i].ok
  }

  /** No run recorded from position `from` on has failed. */
  ghost predicate NoneFailed(history: seq<Step>, from: nat) {
    forall i :: from <= i < |history| && history[i].Finished? ==> history[i].ok
  }

  lemma NoneFailedIff(history: seq<Step>, from: nat, runs: nat, names: map<string, string>)
    requires from <= runs <= |history| && RunsOf(history[runs..], names)
    requires forall i :: from <= i < runs ==> history[i].Adopted?
    ensures NoneFailed(history, from) <==> AllOk(history[runs..])
  {
    if NoneFailed(history, from) {
      forall i | 0 <= i < |history[runs..]| ensures history[runs..][i].Finished? && history[runs..][i].ok {
        assert history[runs..][i] == history[runs + i];
      }
    }
    if AllOk(history[runs..]) {
      forall i | from <= i < |history| && history[i].Finished? ensures history[i].ok {
        assert history[i] == history[runs..][i - runs];
      }
    }
  }

  lemma RestOf(s: seq<string>, i: nat)
    requires Distinct(s) && i < |s|
    ensures s[i] in s[i..] && forall t :: t in s[i + 1..] ==> t in s[i..] && t != s[i]
  {
    assert s[i..] == [s[i]] + s[i + 1..];
  }

  lemma NoSteps(names: map<string, string>)
    ensures RunsOf([], names) && AllOk([])
  {
  }

  lemma BatchSnoc(steps: seq<Step>, s: Step, names: map<string, string>)
    requires RunsOf(steps, names) && s.Finished? && s.record.task in names && s.record.job == names[s.record.task]
    ensures RunsOf(steps + [s], names)
    ensures AllOk(steps + [s]) <==> AllOk(steps) && s.ok
  {
    assert AllOk(steps + [s]) ==> AllOk(steps) && s.ok by {
      if AllOk(steps + [s]) {
        assert (steps + [s])[|steps|] == s;
        forall i | 0 <= i < |steps| ensures steps[i].ok {
          assert (steps + [s])[i] == steps[i];
        }
      }
    }
  }

  lemma AttemptsPinned(environment: map<string, Setting>, attempts: int, manifest: Option<Manifest>)
    ensures AttemptsOf(environment[ATTEMPTS := Number(attempts)]) == attempts
    ensures manifest.Some? && SamePins(manifest.value.settings, environment[ATTEMPTS := Number(attempts)]) ==>
              AttemptsOf(manifest.value.settings) == attempts
  {
  }

  /** What was run, in order. */
  ghost function Finishes(steps: seq<Step>): seq<string> {
    if steps == [] then [] else
      var last := steps[|steps| - 1];
      Finishes(steps[..|steps| - 1]) + if last.Finished? then [last.record.task] else []
  }

  lemma FinishesSnoc(steps: seq<Step>, s: Step)
    ensures Finishes(steps + [s]) == Finishes(steps) + if s.Finished? then [s.record.task] else []
  {
    assert (steps + [s])[..|steps|] == steps;
  }

  /** A completed record of the task with a mean and enough numeric trials; an attempt count of zero
      asks for one. */
  ghost predicate GoodRecord(r: Record, task: string, attempts: int) {
    && r.task == task && task != "" && r.status == Completed && r.mean.Some?
    && |Numeric(r.trials)| >= (if attempts == 0 then 1 else attempts)
  }

  ghost predicate LastGood(list: seq<Record>, task: string, attempts: int, r: Record) {
    exists i :: 0 <= i < |list| && list[i] == r && GoodRecord(r, task, attempts)
      && forall j :: i < j < |list| ==> !GoodRecord(list[j], task, attempts)
  }

  lemma LastGoodNext(list: seq<Record>, item: Record, attempts: int)
    ensures forall t, r :: LastGood(list, t, attempts, r) && !GoodRecord(item, t, attempts) ==>
              LastGood(list + [item], t, attempts, r)
    ensures GoodRecord(item, item.task, attempts) ==> LastGood(list + [item], item.task, attempts, item)
  {
    forall t, r | LastGood(list, t, attempts, r) && !GoodRecord(item, t, attempts)
      ensures LastGood(list + [item], t, attempts, r)
    {
      var i :| 0 <= i < |list| && list[i] == r && GoodRecord(r, t, attempts)
        && forall j :: i < j < |list| ==> !GoodRecord(list[j], t, attempts);
      assert (list + [item])[i] == r;
    }
    assert (list + [item])[|list|] == item;
  }

  lemma AcceptedIffGood(list: seq<Record>, task: string, attempts: int)
    ensures task in Accepted(list, Required(attempts)) <==>
            exists i :: 0 <= i < |list| && GoodRecord(list[i], task, attempts)
  {
    if task in Accepted(list, Required(attempts)) {
      var r :| r in list && Accepts(r, Required(attempts)) && r.task == task;
      var i :| 0 <= i < |list| && list[i] == r;
      assert GoodRecord(list[i], task, attempts);
    }
  }

  class Runner {
    var manifest: Option<Manifest>
    var resultsLog: seq<Record>
    var jobs: map<string, map<string, JobDir>>
    ghost var history: seq<Step>

    function Recorded(): seq<Record>
      reads this
    {
      if manifest.Some? then manifest.value.tasksRun else []
    }

    function Attempts(): int
      reads this
    {
      if manifest.Some? then AttemptsOf(manifest.value.settings) else 0
    }

    /** The log mirrors the manifest, and the manifest is what a legal history leads to. */
    ghost predicate Valid()
      reads this
    {
      && resultsLog == Recorded()
      && Legal([], Attempts(), history)
      && Recorded() == Replay([], history)
      && (manifest.None? ==> history == [])
    }

    constructor ()
      ensures Valid() && manifest == None && history == []
    {
      manifest, resultsLog, jobs, history := None, [], map[], [];
    }

    function Done(): set<string>
      reads this
    {
      Accepted(Recorded(), Required(Attempts()))
    }

    /** At most one record per entry and job. */
    lemma OneRecordPerKey()
      requires Valid()
      ensures UniqueKeys(Recorded())
    {
      ReplayKeepsUnique([], history);
    }

    method EnsureManifest(settings: map<string, Setting>) returns (ok: bool)
      requires Valid()
      modifies `manifest
      ensures Valid() && Recorded() == old(Recorded()) && old(Done()) <= Done()
      ensures ok <==> old(manifest.None?) || SamePins(old(manifest).value.settings, settings)
      ensures ok ==> manifest.Some? && Attempts() == AttemptsOf(settings)
      ensures old(manifest).Some? ==> manifest == old(manifest)
    {
      if manifest.Some? {
        var mismatches: seq<string> := [];
        for i := 0 to |PINNED_KEYS|
          invariant mismatches == [] <==>
                    forall j :: 0 <= j < i ==>
                      Get(manifest.value.settings, PINNED_KEYS[j]) == Get(settings, PINNED_KEYS[j])
        {
          if Get(manifest.value.settings, PINNED_KEYS[i]) != Get(settings, PINNED_KEYS[i]) {
            mismatches := mismatches + [PINNED_KEYS[i]];
          }
        }
        CompatibleIff(manifest.value.settings, settings);
        return mismatches == [];
      }
      manifest := Some(Manifest(settings, []));
      return true;
    }

    method AppendResult(record: Record)
      requires manifest.Some? && resultsLog == Recorded()
      modifies `manifest, `resultsLog
      ensures manifest == Some(old(manifest).value.(tasksRun := Upsert(old(Recorded()), record)))
      ensures resultsLog == Recorded()
    {
      var existing := manifest.value.tasksRun;
      ghost var before := existing;
      var replaced := false;
      for idx := 0 to |existing|
        invariant !replaced && existing == before
        invariant forall k :: 0 <= k < idx ==> KeyOf(existing[k]) != KeyOf(record)
      {
        if existing[idx].task == record.task && existing[idx].job == record.job {
          UpsertReplaces(existing, idx, record);
          if existing[idx] == record {
            assert existing[idx := record] == existing;
            return;
          }
          existing := existing[idx := record];
          replaced := true;
          break;
        }
      }
      if !replaced {
        UpsertAppends(existing, record);
        existing := existing + [record];
      }
      manifest := Some(manifest.value.(tasksRun := existing));
      resultsLog := existing;
    }

    /** Records the outcome of a legal step. */
    method TakeStep(ghost s: Step, record: Record)
      requires Valid() && manifest.Some? && s.record == record && StepOk(Recorded(), Attempts(), s)
      modifies `manifest, `resultsLog, `history
      ensures Valid() && manifest.Some? && Attempts() == old(Attempts())
      ensures Recorded() == Upsert(old(Recorded()), record)
      ensures history == old(history) + [s]
      ensures old(Done()) <= Done() <= old(Done()) + {record.task}
    {
      LegalSnoc([], Attempts(), history, s);
      StepGrows(Recorded(), Attempts(), s);
      AppendResult(record);
      history := history + [s];
    }

    method CompletedRecordedJobs() returns (out: map<string, Record>)
      requires manifest.Some?
      ensures out.Keys == Done()
      ensures forall t :: t in out <==> exists i :: 0 <= i < |Recorded()| && GoodRecord(Recorded()[i], t, Attempts())
      ensures forall t :: t in out ==> LastGood(Recorded(), t, Attempts(), out[t])
    {
      var required := Required(Attempts());
      out := map[];
      var list := manifest.value.tasksRun;
      for i := 0 to |list|
        invariant out.Keys == Accepted(list[..i], required)
        invariant forall t :: t in out ==> LastGood(list[..i], t, Attempts(), out[t])
      {
        var item := list[i];
        assert list[..i + 1] == list[..i] + [item];
        assert forall x :: x in list[..i + 1] <==> x in list[..i] || x == item;
        if item.status == Completed && item.task != "" && item.mean.Some? && |Numeric(item.trials)| >= required {
          assert item in list[..i + 1];
          out := out[item.task := item];
          assert list[..i + 1][i] == item && GoodRecord(item, item.task, Attempts());
        }
        LastGoodNext(list[..i], item, Attempts());
      }
      assert list[..|list|] == list;
      forall t ensures t in out <==> exists i :: 0 <= i < |list| && GoodRecord(list[i], t, Attempts()) {
        AcceptedIffGood(list, t, Attempts());
      }
    }

    /** Takes over the last job, by name, of an earlier run that is good enough, if there is one. */
    method AdoptExistingJob(task: string) returns (adopted: Option<Record>)
      requires Valid() && manifest.Some? && task in jobs && task !in Done()
      modifies `manifest, `resultsLog, `history
      ensures Valid() && manifest.Some? && Attempts() == old(Attempts())
      ensures adopted.None? <==> NoneAdoptable(jobs[task], Attempts())
      ensures adopted.None? <==> forall n :: n in jobs[task] ==>
                !jobs[task][n].hasResult || jobs[task][n].trials == [] || |Numeric(jobs[task][n].trials)| < Attempts()
      ensures adopted.None? ==> Recorded() == old(Recorded()) && history == old(history) && Done() == old(Done())
      ensures adopted.Some? ==>
                && LastAdoptable(jobs[task], Attempts(), adopted.value.job)
                && (var dir := jobs[task][adopted.value.job];
                    adopted.value ==
                    Record(task, adopted.value.job, Completed, Mean(dir.trials), dir.trials, None, dir.details))
                && history == old(history) + [Adopted(adopted.value)]
                && Recorded() == Upsert(old(Recorded()), adopted.value)
                && old(Done()) <= Done() <= old(Done()) + {task}
                && (task in Done() <==> task != "" && Numeric(adopted.value.trials) != [])
    {
      hide Legal, Replay, Accepted, Finishes, Upsert, Required, AttemptsOf;
      var todo := jobs[task].Keys;
      while todo != {}
        invariant unchanged(this) && todo <= jobs[task].Keys
        invariant forall name :: name in jobs[task] && name !in todo ==> !Adoptable(jobs[task][name], Attempts())
        decreases todo
      {
        var name := LastName(todo);
        var dir := jobs[task][name];
        if dir.hasResult && dir.trials != [] && |Numeric(dir.trials)| >= Attempts() {
          var record := AdoptedRecord(task, name, dir);
          StepLands(Recorded(), Attempts(), Adopted(record));
          TakeStep(Adopted(record), record);
          assert Adoptable(jobs[task][name], Attempts());
          return Some(record);
        }
        todo := todo - {name};
      }
      return None;
    }

    /** Decides what a task needs: `false` when it is already recorded or could be adopted. */
    method PrepareTask(task: string) returns (needsRun: bool)
      requires Valid() && manifest.Some?
      modifies this
      ensures Valid() && manifest.Some? && Attempts() == old(Attempts())
      ensures old(Done()) <= Done() <= old(Done()) + {task}
      ensures old(history) <= history && Finishes(history) == Finishes(old(history))
      ensures forall i :: |old(history)| <= i < |history| ==> history[i].Adopted?
      ensures needsRun ==> task !in Done() && task in jobs
      ensures needsRun <==> NeedsRun(old(Recorded()), old(Attempts()), old(jobs), task)
      ensures needsRun || task in old(Done()) ==> Recorded() == old(Recorded()) && history == old(history)
      ensures !needsRun && task !in old(Done()) ==>
                exists name ::
                  && LastAdoptable(old(jobs)[task], Attempts(), name)
                  && var a := AdoptedRecord(task, name, old(jobs)[task][name]);
                     Recorded() == Upsert(old(Recorded()), a) && history == old(history) + [Adopted(a)]
      ensures !needsRun && Attempts() >= 1 && task != "" ==> task in Done()
      ensures jobs.Keys <= old(jobs).Keys + {task}
              && forall t :: t in old(jobs) ==> t in jobs && jobs[t] == old(jobs)[t]
    {
      hide Legal, Replay, Accepted, StepOk, Finishes, Upsert, Required, AttemptsOf;
      var recorded := CompletedRecordedJobs();
      if task in recorded {
        return false;
      }
      if task !in jobs {
        jobs := jobs[task := map[]];
      }
      var adopted := AdoptExistingJob(task);
      if adopted.Some? {
        FinishesSnoc(old(history), Adopted(adopted.value));
      }
      return adopted.None?;
    }

    /** Runs the external job: it may leave any job directories of this task behind. */
    method ExecuteTaskProcess(task: string) returns (returnCode: int)
      modifies `jobs
      ensures task in jobs
    {
      var dirs: map<string, JobDir> := *;
      returnCode := *;
      jobs := jobs[task := dirs];
    }

    /** Records what became of a run. Success is exactly a job result with enough numeric trials. */
    method FinalizeTaskResult(task: string, job: string, returnCode: int) returns (ok: bool, record: Record)
      requires Valid() && manifest.Some? && task in jobs && task !in Done()
      modifies `manifest, `resultsLog, `history
      ensures Valid() && manifest.Some? && Attempts() == old(Attempts())
      ensures record.task == task && record.job == job && record.returnCode == Some(returnCode)
      ensures var dir := if job in jobs[task] then jobs[task][job] else JobDir(false, [], "");
              && (ok <==> dir.hasResult && Numeric(dir.trials) != [] && |Numeric(dir.trials)| >= Attempts())
              && (dir.hasResult && dir.trials != [] ==> record.trials == dir.trials && record.mean == Mean(dir.trials))
              && (ok <==> record.status == Completed)
              && (record.status == CompletedWithPartialNumericReward <==>
                    !ok && dir.hasResult && Numeric(dir.trials) != [])
              && (record.status == CompletedWithoutNumericReward <==>
                    dir.hasResult && dir.trials != [] && Numeric(dir.trials) == [])
              && (record.status == FailedToProduceResult <==>
                    !dir.hasResult || (dir.trials == [] && returnCode != 0))
              && (record.status == MissingTrialResults <==> dir.hasResult && dir.trials == [] && returnCode == 0)
      ensures history == old(history) + [Finished(record, ok)]
      ensures Recorded() == Upsert(old(Recorded()), record)
      ensures old(Done()) <= Done() <= old(Done()) + {task}
      ensures task in Done() <==> ok && task != ""
      ensures NeedsRun(Recorded(), Attempts(), jobs, task) <==> NoneAdoptable(jobs[task], Attempts())
    {
      var dir := if job in jobs[task] then jobs[task][job] else JobDir(false, [], "");
      var numeric := Numeric(dir.trials);
      if dir.hasResult && dir.trials != [] {
        record := Record(task, job, Completed, Mean(dir.trials), dir.trials, Some(returnCode), dir.details);
        if record.mean.Some? && |numeric| >= Attempts() {
          StepLands(Recorded(), Attempts(), Finished(record, true));
          TakeStep(Finished(record, true), record);
          return true, record;
        }
        record := record.(status := if numeric != [] then CompletedWithPartialNumericReward
                                    else CompletedWithoutNumericReward);
      } else if returnCode != 0 || !dir.hasResult {
        record := Record(task, job, FailedToProduceResult, None, [], Some(returnCode), dir.details);
      } else if dir.trials == [] {
        record := Record(task, job, MissingTrialResults, None, [], Some(returnCode), dir.details);
      } else {
        assert false;
      }
      StepLands(Recorded(), Attempts(), Finished(record, false));
      TakeStep(Finished(record, false), record);
      return false, record;
    }

    /** Prepares every entry in turn and names the jobs of those that have to run. */
    method PrepareAll(tasks: seq<string>) returns (pending: seq<string>, names: map<string, string>)
      requires Valid() && manifest.Some? && Distinct(tasks)
      modifies this
      ensures Valid() && manifest.Some? && Attempts() == old(Attempts())
      ensures old(Done()) <= Done() && old(history) <= history
      ensures Finishes(history) == Finishes(old(history))
      ensures Distinct(pending) && forall t :: t in pending ==> t !in Done()
      ensures forall t :: t in pending <==> t in tasks && NeedsRun(old(Recorded()), old(Attempts()), old(jobs), t)
      ensures pending == Values(Wanted(tasks, old(Recorded()), old(Attempts()), old(jobs)))
      ensures forall i :: |old(history)| <= i < |history| ==> history[i].Adopted?
      ensures Named(pending, names, jobs)
      ensures Attempts() >= 1 ==> forall t :: t in tasks && t != "" && t !in pending ==> t in Done()
    {
      hide NoneAdoptable, Legal, Replay, Accepted, StepOk, Finishes, Upsert, Required, AttemptsOf, Named, JobName,
        Wanted, Values;
      pending, names := [], map[];
      assert Named(pending, names, jobs) by { NothingPending(names, jobs); }
      NothingWanted(Recorded(), Attempts(), jobs);
      assert tasks[..0] == [];
      for i := 0 to |tasks|
        invariant Valid() && manifest.Some? && Attempts() == old(Attempts())
        invariant old(Done()) <= Done() && old(history) <= history
        invariant Finishes(history) == Finishes(old(history))
        invariant Distinct(pending) && Named(pending, names, jobs)
        invariant forall t :: t in pending ==> t in tasks[..i] && t !in Done()
        invariant pending == Values(Wanted(tasks[..i], old(Recorded()), old(Attempts()), old(jobs)))
        invariant forall k :: |old(history)| <= k < |history| ==> history[k].Adopted?
        invariant forall t :: t in tasks[..i] ==>
                    (t in pending <==> NeedsRun(old(Recorded()), old(Attempts()), old(jobs), t))
        invariant forall t :: t in tasks[i..] ==>
                    && (t in Done() <==> t in old(Done())) && (t in jobs <==> t in old(jobs))
                    && (t in jobs ==> jobs[t] == old(jobs)[t])
        invariant Attempts() >= 1 ==> forall t :: t in tasks[..i] && t != "" && t !in pending ==> t in Done()
      {
        var task := tasks[i];
        assert task !in tasks[..i];
        ghost var dirs := jobs;
        var needsRun := PrepareTask(task);
        NamedStays(pending, names, dirs, jobs);
        if needsRun {
          NamedSnoc(pending, names, jobs, task);
          names := names[task := JobName(|jobs[task]| + 1)];
          pending := pending + [task];
        }
        assert tasks[..i + 1] == tasks[..i] + [task];
        WantedSnoc(tasks[..i], task, old(Recorded()), old(Attempts()), old(jobs));
      }
      assert tasks[..|tasks|] == tasks;
    }

    /** Runs one job and records what became of it. */
    method RunOne(task: string, job: string) returns (code: int, ok: bool, ghost s: Step)
      requires Valid() && manifest.Some? && task !in Done()
      modifies this
      ensures Valid() && manifest.Some? && Attempts() == old(Attempts())
      ensures s.Finished? && s.ok == ok && s.record.task == task && s.record.job == job
      ensures s.record.returnCode == Some(code)
      ensures history == old(history) + [s]
      ensures Finishes(history) == Finishes(old(history)) + [task]
      ensures old(Done()) <= Done() <= old(Done()) + {task}
      ensures ok && task != "" ==> task in Done()
    {
      hide Legal, Replay, Accepted, StepOk, Finishes, Upsert, Required, AttemptsOf;
      code := ExecuteTaskProcess(task);
      var record;
      ok, record := FinalizeTaskResult(task, job, code);
      s := Finished(record, ok);
      FinishesSnoc(old(history), s);
    }

    /** One after the other, stopping at the first failure unless told to go on. */
    method RunSequentially(pending: seq<string>, names: map<string, string>, continueOnFailure: bool)
      returns (exitCode: int, ran: seq<string>)
      requires Valid() && manifest.Some? && Distinct(pending)
      requires forall t :: t in pending ==> t !in Done() && t in names
      modifies this
      ensures Valid() && manifest.Some? && Attempts() == old(Attempts())
      ensures old(Done()) <= Done() && old(history) <= history
      ensures ran <= pending && Finishes(history) == Finishes(old(history)) + ran
      ensures exitCode == 0 ==> ran == pending
      ensures exitCode == 0 <==> continueOnFailure || AllOk(history[|old(history)|..])
      ensures RunsOf(history[|old(history)|..], names) && |history| - |old(history)| == |ran|
      ensures exitCode != 0 ==>
                && |history| > 0
                && var code := history[|history| - 1].record.returnCode;
                   code.Some? && exitCode == if code.value != 0 then code.value else 1
      ensures !continueOnFailure ==> forall i :: |old(history)| <= i < |history| - 1 ==>
              history[i].Finished? && history[i].ok
      ensures AllOk(history[|old(history)|..]) ==> forall t :: t in ran && t != "" ==> t in Done()
    {
      hide Legal, Replay, Accepted, StepOk, Finishes, Upsert, Required, AttemptsOf, AllOk, RunsOf, Distinct;
      NoSteps(names);
      assert history[|old(history)|..] == [];
      ran := [];
      for i := 0 to |pending|
        invariant Valid() && manifest.Some? && Attempts() == old(Attempts())
        invariant old(Done()) <= Done() && old(history) <= history
        invariant ran == pending[..i] && Finishes(history) == Finishes(old(history)) + ran
        invariant RunsOf(history[|old(history)|..], names) && |history| - |old(history)| == i
        invariant continueOnFailure || AllOk(history[|old(history)|..])
        invariant !continueOnFailure ==> forall i :: |old(history)| <= i < |history| ==>
                  history[i].Finished? && history[i].ok
        invariant AllOk(history[|old(history)|..]) ==> forall t :: t in ran && t != "" ==> t in Done()
        invariant forall t :: t in pending[i..] ==> t !in Done() && t in names
      {
        var task := pending[i];
        RestOf(pending, i);
        ghost var h := history;
        var code, ok, s := RunOne(task, names[task]);
        BatchSnoc(h[|old(history)|..], s, names);
        assert history[|old(history)|..] == h[|old(history)|..] + [s];
        ran := ran + [task];
        assert pending[..i + 1] == pending[..i] + [task];
        if !ok && !continueOnFailure {
          return if code != 0 then code else 1, ran;
        }
      }
      assert pending[..|pending|] == pending;
      exitCode := 0;
    }

    /** All at once; results are recorded in whatever order the jobs complete. */
    method RunInParallel(pending: seq<string>, names: map<string, string>, continueOnFailure: bool)
      returns (exitCode: int, ran: seq<string>)
      requires Valid() && manifest.Some? && Distinct(pending)
      requires forall t :: t in pending ==> t !in Done() && t in names
      modifies this
      ensures Valid() && manifest.Some? && Attempts() == old(Attempts())
      ensures old(Done()) <= Done() && old(history) <= history
      ensures Distinct(ran) && Elems(ran) == Elems(pending)
      ensures Finishes(history) == Finishes(old(history)) + ran
      ensures exitCode == 0 <==> continueOnFailure || AllOk(history[|old(history)|..])
      ensures exitCode == 0 || exitCode == 1
      ensures RunsOf(history[|old(history)|..], names) && |history| - |old(history)| == |ran|
      ensures AllOk(history[|old(history)|..]) ==> forall t :: t in ran && t != "" ==> t in Done()
    {
      hide Legal, Replay, Accepted, StepOk, Finishes, Upsert, Required, AttemptsOf, AllOk, RunsOf;
      NoSteps(names);
      assert history[|old(history)|..] == [];
      ran := [];
      var open := set t | t in pending;
      var hadFailure := false;
      while open != {}
        invariant Valid() && manifest.Some? && Attempts() == old(Attempts())
        invariant old(Done()) <= Done() && old(history) <= history
        invariant Distinct(ran) && Elems(ran) + open == Elems(pending) && Elems(ran) !! open
        invariant Finishes(history) == Finishes(old(history)) + ran
        invariant RunsOf(history[|old(history)|..], names) && |history| - |old(history)| == |ran|
        invariant hadFailure <==> !AllOk(history[|old(history)|..])
        invariant !hadFailure ==> forall t :: t in ran && t != "" ==> t in Done()
        invariant forall t :: t in open ==> t !in Done() && t in names
        decreases open
      {
        var task :| task in open;
        ghost var h := history;
        var code, ok, s := RunOne(task, names[task]);
        BatchSnoc(h[|old(history)|..], s, names);
        assert history[|old(history)|..] == h[|old(history)|..] + [s];
        if !ok {
          hadFailure := true;
        }
        open := open - {task};
        assert task !in Elems(ran);
        assert Elems(ran + [task]) == Elems(ran) + {task};
        ran := ran + [task];
      }
      exitCode := if hadFailure && !continueOnFailure then 1 else 0;
    }

    /** One invocation of the program. */
    method Invoke(given: seq<string>, fileLines: seq<string>, environment: map<string, Setting>,
                  attempts: int, continueOnFailure: bool, maxParallel: int)
      returns (refused: bool, exitCode: int, ran: seq<string>)
      requires Valid()
      modifies this
      ensures Valid() && old(history) <= history
      ensures UniqueKeys(Recorded())
      ensures old(Done()) <= Done()
      ensures forall t :: t in ran ==> t !in old(Done())
      ensures Distinct(ran) && Finishes(history) == Finishes(old(history)) + ran
      ensures refused ==> exitCode == 1 && ran == [] && Recorded() == old(Recorded())
      ensures refused <==>
                || given + Usable(fileLines) == []
                || (&& old(manifest).Some?
                    && !SamePins(old(manifest).value.settings, environment["attempts_per_task" := Number(attempts)]))
      ensures old(manifest).Some? && old(Attempts()) != attempts ==> refused
      ensures !refused ==> (exitCode == 0 <==> continueOnFailure || NoneFailed(history, |old(history)|))
      ensures !refused && maxParallel <= 1 ==>
                ran <= Values(Wanted(FirstMentions(given + Usable(fileLines)), old(Recorded()), attempts, old(jobs)))
      ensures forall t :: t in ran ==>
                (t in given || t in Usable(fileLines)) && NeedsRun(old(Recorded()), attempts, old(jobs), t)
      ensures !refused && exitCode == 0 ==>
                forall t :: (t in given || t in Usable(fileLines)) && t !in ran ==>
                  !NeedsRun(old(Recorded()), attempts, old(jobs), t)
      ensures !refused && exitCode == 0 && !continueOnFailure && attempts >= 1 ==>
                forall t :: (t in given || t in Usable(fileLines)) && t != "" ==> t in Done()
    {
      hide UniqueKeys, Legal, Replay, Accepted, StepOk, Finishes, Upsert, Required, NeedsRun,
        AttemptsOf, FirstMentions, Usable, AllOk, RunsOf, SamePins, Wanted, Values, NoneFailed;
      ran := [];
      var tasks := LoadTasks(given, fileLines);
      FirstMentionsDistinct(given + Usable(fileLines));
      assert tasks == [] <==> given + Usable(fileLines) == [] by {
        FirstMentionsEmpty(given + Usable(fileLines));
      }
      if tasks == [] {
        OneRecordPerKey();
        return true, 1, ran;
      }
      var settings := environment[ATTEMPTS := Number(attempts)];
      AttemptsPinned(environment, attempts, manifest);
      var ok := EnsureManifest(settings);
      OneRecordPerKey();
      if !ok {
        return true, 1, ran;
      }
      assert Attempts() == attempts;
      var pending, names := PrepareAll(tasks);
      ghost var done, runs := Done(), |history|;
      refused := false;
      assert forall t :: t in tasks <==> t in given || t in Usable(fileLines);
      if pending == [] {
        OneRecordPerKey();
        NoSteps(names);
        assert history[runs..] == [];
        NoneFailedIff(history, |old(history)|, runs, names);
        return refused, 0, ran;
      }
      if maxParallel <= 1 {
        exitCode, ran := RunSequentially(pending, names, continueOnFailure);
      } else {
        exitCode, ran := RunInParallel(pending, names, continueOnFailure);
      }
      OneRecordPerKey();
      NoneFailedIff(history, |old(history)|, runs, names);
      forall t | t in ran ensures t in pending {
        assert t in Elems(ran);
      }
      assert old(Done()) <= done <= Done();
      if exitCode == 0 {
        forall t | t in pending ensures t in ran {
          assert t in Elems(pending);
        }
      }
    }
  }
}
