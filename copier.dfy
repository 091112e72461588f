/** `copyFilesWithCondition(sourceDirectory, destinationDirectory,
    fileExtensions)`: stages at most five new items of a source directory
    in a destination directory, archiving folders as `<name>.zip` and
    copying files whose extension is allowed, skipping names already
    synced. The listing is taken once and consumed from the front; each
    archive finishes (its stream closes) before the next item starts. */
module Copier {
  import opened FileTree
  import opened PathNames
  import opened NodeFs

  /** Completed copies and archives per call. */
  const BatchLimit := 5

  /** What the copier reads but never writes: the allowed extensions
      (lower case, with the dot) and the names already synced as folders
      and as files. */
  datatype CopyConfig = CopyConfig(extensions: seq<string>, excludedFolders: set<string>, excludedFiles: set<string>)

  datatype SkipReason = ExcludedFolder | ZipNamedFolder | ExtensionNotAllowed | ExcludedFile

  /** What happened to one examined entry. */
  datatype Action =
    | Skipped(name: string, reason: SkipReason)
    | Archived(name: string, zip: Path)
    | Copied(name: string, to: Path)
    | Failed(name: string, error: FsError)
  {
    predicate Counted() {
      Archived? || Copied?
    }

    function Target(): Path
      requires Counted()
    {
      if Archived? then zip else to
    }
  }

  /** How a call ended: before the scan (the destination could not be
      created or the source could not be listed), or after scanning a
      listing with the given log. */
  datatype CopyOutcome =
    | SetupFailed(error: FsError)
    | Scanned(listing: seq<string>, log: seq<Action>)

  /** The selection rules: a folder is archived unless its name is an
      already-synced folder or ends in ".zip"; anything else is copied when
      its lower-cased extension is allowed and its name is not an
      already-synced file. */
  predicate Eligible(t: Tree, src: Path, name: string, cfg: CopyConfig) {
    && src + [name] in t
    && if t[src + [name]].Dir? then
         name !in cfg.excludedFolders && !EndsWith(name, ".zip")
       else
         Lower(ExtName(name)) in cfg.extensions && name !in cfg.excludedFiles
  }

  /** Every entry of t is still there in u, and still a directory or not. */
  ghost predicate Preserves(t: Tree, u: Tree) {
    forall p :: p in t ==> p in u && u[p].Dir? == t[p].Dir?
  }

  /** `existsSync(dst) || mkdirSync(dst, {recursive: true})` */
  function Prepare(t: Tree, dst: Path): (r: Result<Tree>)
    ensures r.Ok? ==> Exists(r.value, dst)
    ensures r.Ok? && !Exists(t, dst) ==> IsDirAt(r.value, dst)
    ensures Exists(t, dst) ==> r == Ok(t)
    ensures r.Ok? && Valid(t) ==> Valid(r.value)
    ensures r.Ok? ==> Preserves(t, r.value)
  {
    if Exists(t, dst) then Ok(t)
    else
      assert MkdirAll(t, dst).Ok? && Valid(t) ==> Valid(MkdirAll(t, dst).value) by {
        if MkdirAll(t, dst).Ok? && Valid(t) {
          MkdirAllKeepsValid(t, dst);
        }
      }
      MkdirAll(t, dst)
  }

  /** One call of `processNextItem` on `name`, up to its recursive call. */
  function Step(t: Tree, src: Path, dst: Path, name: string, cfg: CopyConfig): (r: (Tree, Action))
    ensures r.1.name == name
    ensures !r.1.Counted() ==> r.0 == t
  {
    var from := src + [name];
    if from !in t then (t, Failed(name, NoEntry))
    else if t[from].Dir? then
      if name in cfg.excludedFolders then (t, Skipped(name, ExcludedFolder))
      else if EndsWith(name, ".zip") then (t, Skipped(name, ZipNamedFolder))
      else
        var zip := dst + [name + ".zip"];
        match WriteFile(t, zip, ZipOf(from))
        case Ok(u) => (u, Archived(name, zip))
        case Err(e) => (t, Failed(name, e))
    else if Lower(ExtName(name)) !in cfg.extensions then (t, Skipped(name, ExtensionNotAllowed))
    else if name in cfg.excludedFiles then (t, Skipped(name, ExcludedFile))
    else
      var to := dst + [name];
      match CopyFile(t, from, to)
      case Ok(u) => (u, Copied(name, to))
      case Err(e) => (t, Failed(name, e))
  }

  /** The folder and file rules of one step: what is skipped, what is
      written where, and that a step fails only on a missing entry or on a
      selected entry it could not write. */
  lemma StepRules(t: Tree, src: Path, dst: Path, name: string, cfg: CopyConfig)
    ensures var (u, a) := Step(t, src, dst, name, cfg);
      && (a.Failed? <==> src + [name] !in t || (Eligible(t, src, name, cfg) && !a.Counted()))
      && (src + [name] in t ==> (a.Skipped? <==> !Eligible(t, src, name, cfg)))
      && (a.Archived? ==>
            && t[src + [name]].Dir?
            && a.zip == dst + [name + ".zip"]
            && u == t[a.zip := File(ZipOf(src + [name]))])
      && (a.Copied? ==>
            && !t[src + [name]].Dir?
            && a.to == dst + [name]
            && u == t[a.to := t[src + [name]]])
  {
  }

  /** A step keeps every entry, and its kind, and the tree's shape. */
  lemma StepPreserves(t: Tree, src: Path, dst: Path, name: string, cfg: CopyConfig)
    ensures Preserves(t, Step(t, src, dst, name, cfg).0)
    ensures Valid(t) ==> Valid(Step(t, src, dst, name, cfg).0)
  {
    var from := src + [name];
    if Valid(t) && from in t {
      if t[from].Dir? {
        var zip := dst + [name + ".zip"];
        if WriteFile(t, zip, ZipOf(from)).Ok? {
          WriteFileKeepsValid(t, zip, ZipOf(from));
        }
      } else if CopyFile(t, from, dst + [name]).Ok? {
        CopyFileKeepsValid(t, from, dst + [name]);
      }
    }
  }

  /** The scan from a queue with `total` operations already completed:
      it stops when the batch is full, the queue is empty, or an item
      fails. Returns the final tree and the log of examined entries. */
  function Run(t: Tree, src: Path, dst: Path, queue: seq<string>, total: nat, cfg: CopyConfig): (r: (Tree, seq<Action>))
    decreases |queue|
  {
    if total >= BatchLimit || queue == [] then (t, [])
    else
      var (u, a) := Step(t, src, dst, queue[0], cfg);
      if a.Failed? then (u, [a])
      else
        var (w, rest) := Run(u, src, dst, queue[1..], if a.Counted() then total + 1 else total, cfg);
        (w, [a] + rest)
  }

  /** The scan keeps every entry and its kind (so the kind each later
      `statSync` sees is the one the listing had), and the tree's shape. */
  lemma {:induction false} RunPreserves(t: Tree, src: Path, dst: Path, queue: seq<string>, total: nat, cfg: CopyConfig)
    ensures Preserves(t, Run(t, src, dst, queue, total, cfg).0)
    ensures Valid(t) ==> Valid(Run(t, src, dst, queue, total, cfg).0)
    decreases |queue|
  {
    if total < BatchLimit && queue != [] {
      var (u, a) := Step(t, src, dst, queue[0], cfg);
      StepPreserves(t, src, dst, queue[0], cfg);
      if !a.Failed? {
        RunPreserves(u, src, dst, queue[1..], if a.Counted() then total + 1 else total, cfg);
      }
    }
  }

  /** The names of the entries copied or archived, in log order. */
  function CountedNames(log: seq<Action>): seq<string> {
    if log == [] then []
    else (if log[0].Counted() then [log[0].name] else []) + CountedNames(log[1..])
  }

  /** The paths the log's copies and archives wrote. */
  function Writes(log: seq<Action>): set<Path> {
    set i | 0 <= i < |log| && log[i].Counted() :: log[i].Target()
  }

  /** The names of the queue the rules select, in queue order. */
  function EligibleNames(t: Tree, src: Path, queue: seq<string>, cfg: CopyConfig): seq<string> {
    if queue == [] then []
    else (if Eligible(t, src, queue[0], cfg) then [queue[0]] else []) + EligibleNames(t, src, queue[1..], cfg)
  }

  /** The first n elements of s (all of s when it is shorter). */
  function Take<T>(s: seq<T>, n: int): (r: seq<T>)
    ensures |r| == if n <= 0 then 0 else if n < |s| then n else |s|
    ensures r <= s
  {
    if n <= 0 then [] else if n < |s| then s[..n] else s
  }

  /** A call completes at most five copies and archives. */
  lemma {:induction false} RunWithinBatch(t: Tree, src: Path, dst: Path, queue: seq<string>, total: nat, cfg: CopyConfig)
    requires total <= BatchLimit
    ensures total + |CountedNames(Run(t, src, dst, queue, total, cfg).1)| <= BatchLimit
    decreases |queue|
  {
    if total >= BatchLimit || queue == [] {
    } else {
      var (u, a) := Step(t, src, dst, queue[0], cfg);
      if !a.Failed? {
        var next := if a.Counted() then total + 1 else total;
        RunWithinBatch(u, src, dst, queue[1..], next, cfg);
        var rest := Run(u, src, dst, queue[1..], next, cfg).1;
        assert CountedNames([a] + rest) == (if a.Counted() then [a.name] else []) + CountedNames(rest) by {
          assert ([a] + rest)[1..] == rest;
        }
      }
    }
  }

  /** No entry is examined once five copies and archives are done: each
      logged entry was reached with the batch still open. */
  lemma {:induction false} RunStopsAtBatch(t: Tree, src: Path, dst: Path, queue: seq<string>, total: nat, cfg: CopyConfig)
    ensures var log := Run(t, src, dst, queue, total, cfg).1;
      forall i :: 0 <= i < |log| ==> total + |CountedNames(log[..i])| < BatchLimit
    decreases |queue|
  {
    if total < BatchLimit && queue != [] {
      var r := Step(t, src, dst, queue[0], cfg);
      var u, a := r.0, r.1;
      RunUnfold(t, src, dst, queue, total, cfg);
      if a.Failed? {
        assert Run(t, src, dst, queue, total, cfg).1 == [a];
        assert ([a])[..0] == [];
      } else {
        var next := if a.Counted() then total + 1 else total;
        RunStopsAtBatch(u, src, dst, queue[1..], next, cfg);
        var rest := Run(u, src, dst, queue[1..], next, cfg).1;
        var log := [a] + rest;
        assert Run(t, src, dst, queue, total, cfg).1 == log;
        forall i | 0 <= i < |log|
          ensures total + |CountedNames(log[..i])| < BatchLimit
        {
          if i == 0 {
            assert log[..i] == [];
          } else {
            assert log[..i] == [a] + rest[..i - 1];
            CountedNamesCons(a, rest[..i - 1]);
          }
        }
      }
    }
  }

  /** Entries are examined in listing order, each at most once, and only
      the last one examined can have failed. */
  lemma {:induction false} RunInOrder(t: Tree, src: Path, dst: Path, queue: seq<string>, total: nat, cfg: CopyConfig)
    ensures var log := Run(t, src, dst, queue, total, cfg).1;
      && |log| <= |queue|
      && (forall i :: 0 <= i < |log| ==> log[i].name == queue[i])
      && (forall i :: 0 <= i < |log| - 1 ==> !log[i].Failed?)
    decreases |queue|
  {
    if total < BatchLimit && queue != [] {
      var r := Step(t, src, dst, queue[0], cfg);
      var u, a := r.0, r.1;
      RunUnfold(t, src, dst, queue, total, cfg);
      if a.Failed? {
        assert Run(t, src, dst, queue, total, cfg).1 == [a];
      } else {
        var next := if a.Counted() then total + 1 else total;
        RunInOrder(u, src, dst, queue[1..], next, cfg);
        var rest := Run(u, src, dst, queue[1..], next, cfg).1;
        var log := [a] + rest;
        assert Run(t, src, dst, queue, total, cfg).1 == log;
        forall i | 0 <= i < |log|
          ensures log[i].name == queue[i]
        {
          if i > 0 {
            assert log[i] == rest[i - 1];
            assert queue[1..][i - 1] == queue[i];
          }
        }
        forall i | 0 <= i < |log| - 1
          ensures !log[i].Failed?
        {
          if i > 0 {
            assert log[i] == rest[i - 1];
          }
        }
      }
    }
  }

  /** An entry is left unexamined only when the batch is full or the last
      examined item failed. */
  lemma {:induction false} RunStopsOnlyWhenDone(t: Tree, src: Path, dst: Path, queue: seq<string>, total: nat, cfg: CopyConfig)
    ensures var log := Run(t, src, dst, queue, total, cfg).1;
      |log| < |queue| ==> total + |CountedNames(log)| >= BatchLimit || (log != [] && log[|log| - 1].Failed?)
    decreases |queue|
  {
    if total < BatchLimit && queue != [] {
      var r := Step(t, src, dst, queue[0], cfg);
      var u, a := r.0, r.1;
      RunUnfold(t, src, dst, queue, total, cfg);
      if a.Failed? {
        assert Run(t, src, dst, queue, total, cfg).1 == [a];
      } else {
        var next := if a.Counted() then total + 1 else total;
        RunStopsOnlyWhenDone(u, src, dst, queue[1..], next, cfg);
        var rest := Run(u, src, dst, queue[1..], next, cfg).1;
        var log := [a] + rest;
        assert Run(t, src, dst, queue, total, cfg).1 == log;
        CountedNamesCons(a, rest);
        if rest != [] {
          assert log[|log| - 1] == rest[|rest| - 1];
        }
      }
    }
  }

  /** Entries are examined in listing order, each at most once; only the
      last one examined can have failed; and an entry is left unexamined
      only when the batch is full or an item failed. */
  lemma RunScansInOrder(t: Tree, src: Path, dst: Path, queue: seq<string>, total: nat, cfg: CopyConfig)
    ensures var log := Run(t, src, dst, queue, total, cfg).1;
      && |log| <= |queue|
      && (forall i :: 0 <= i < |log| ==> log[i].name == queue[i])
      && (forall i :: 0 <= i < |log| - 1 ==> !log[i].Failed?)
      && (|log| < |queue| ==> total + |CountedNames(log)| >= BatchLimit || log[|log| - 1].Failed?)
  {
    RunInOrder(t, src, dst, queue, total, cfg);
    RunStopsOnlyWhenDone(t, src, dst, queue, total, cfg);
  }


  /** A step changes at most the path it copies or archives to. */
  lemma StepFrame(t: Tree, src: Path, dst: Path, name: string, cfg: CopyConfig)
    ensures var (u, a) := Step(t, src, dst, name, cfg);
      forall p :: (!a.Counted() || p != a.Target()) ==> Lookup(u, p) == Lookup(t, p)
  {
    StepRules(t, src, dst, name, cfg);
  }

  lemma WritesCons(a: Action, rest: seq<Action>)
    ensures Writes([a] + rest) == (if a.Counted() then {a.Target()} else {}) + Writes(rest)
  {
    var log := [a] + rest;
    forall p | p in Writes(rest)
      ensures p in Writes(log)
    {
      var i :| 0 <= i < |rest| && rest[i].Counted() && rest[i].Target() == p;
      assert log[i + 1] == rest[i];
    }
    forall p | p in Writes(log)
      ensures p in Writes(rest) || (a.Counted() && p == a.Target())
    {
      var i :| 0 <= i < |log| && log[i].Counted() && log[i].Target() == p;
      if i > 0 {
        assert log[i] == rest[i - 1];
      }
    }
    if a.Counted() {
      assert log[0] == a;
    }
  }

  /** Each archive lands at `dst/<name>.zip` and each copy at `dst/<name>`. */
  lemma {:induction false} RunTargets(t: Tree, src: Path, dst: Path, queue: seq<string>, total: nat, cfg: CopyConfig)
    ensures var log := Run(t, src, dst, queue, total, cfg).1;
      && (forall i :: 0 <= i < |log| && log[i].Archived? ==> log[i].zip == dst + [log[i].name + ".zip"])
      && (forall i :: 0 <= i < |log| && log[i].Copied? ==> log[i].to == dst + [log[i].name])
    decreases |queue|
  {
    if total < BatchLimit && queue != [] {
      var r := Step(t, src, dst, queue[0], cfg);
      var u, a := r.0, r.1;
      RunUnfold(t, src, dst, queue, total, cfg);
      StepRules(t, src, dst, queue[0], cfg);
      if !a.Failed? {
        var next := if a.Counted() then total + 1 else total;
        RunTargets(u, src, dst, queue[1..], next, cfg);
        var rest := Run(u, src, dst, queue[1..], next, cfg).1;
        var log := [a] + rest;
        assert Run(t, src, dst, queue, total, cfg).1 == log;
        assert forall i :: 1 <= i < |log| ==> log[i] == rest[i - 1];
      }
    }
  }

  /** Every path the scan did not copy or archive to keeps its entry. */
  lemma {:induction false} RunWritesOnly(t: Tree, src: Path, dst: Path, queue: seq<string>, total: nat, cfg: CopyConfig)
    ensures var (u, log) := Run(t, src, dst, queue, total, cfg);
      forall p :: p !in Writes(log) ==> Lookup(u, p) == Lookup(t, p)
    decreases |queue|
  {
    if total < BatchLimit && queue != [] {
      var r := Step(t, src, dst, queue[0], cfg);
      var u, a := r.0, r.1;
      RunUnfold(t, src, dst, queue, total, cfg);
      StepFrame(t, src, dst, queue[0], cfg);
      if a.Failed? {
        assert Writes([a]) == {};
      } else {
        var next := if a.Counted() then total + 1 else total;
        RunWritesOnly(u, src, dst, queue[1..], next, cfg);
        var w := Run(u, src, dst, queue[1..], next, cfg).0;
        var rest := Run(u, src, dst, queue[1..], next, cfg).1;
        assert Run(t, src, dst, queue, total, cfg) == (w, [a] + rest);
        WritesCons(a, rest);
      }
    }
  }

  /** The scan writes only `dst/<name>.zip` for archived folders and
      `dst/<name>` for copied files; every other path keeps its entry. */
  lemma RunFrame(t: Tree, src: Path, dst: Path, queue: seq<string>, total: nat, cfg: CopyConfig)
    ensures var (u, log) := Run(t, src, dst, queue, total, cfg);
      && (forall i :: 0 <= i < |log| && log[i].Archived? ==> log[i].zip == dst + [log[i].name + ".zip"])
      && (forall i :: 0 <= i < |log| && log[i].Copied? ==> log[i].to == dst + [log[i].name])
      && (forall p :: p !in Writes(log) ==> Lookup(u, p) == Lookup(t, p))
  {
    RunTargets(t, src, dst, queue, total, cfg);
    RunWritesOnly(t, src, dst, queue, total, cfg);
  }


  /** Eligibility reads only which entries exist and which are
      directories. */
  lemma {:induction false} EligibleNamesStable(t: Tree, u: Tree, src: Path, queue: seq<string>, cfg: CopyConfig)
    requires Preserves(t, u)
    requires forall i :: 0 <= i < |queue| ==> src + [queue[i]] in t
    ensures EligibleNames(u, src, queue, cfg) == EligibleNames(t, src, queue, cfg)
    decreases |queue|
  {
    if queue != [] {
      assert Eligible(u, src, queue[0], cfg) == Eligible(t, src, queue[0], cfg);
      EligibleNamesStable(t, u, src, queue[1..], cfg);
    }
  }

  /** Run unfolded once. */
  lemma RunUnfold(t: Tree, src: Path, dst: Path, queue: seq<string>, total: nat, cfg: CopyConfig)
    requires total < BatchLimit && queue != []
    ensures var (u, a) := Step(t, src, dst, queue[0], cfg);
      var next := if a.Counted() then total + 1 else total;
      Run(t, src, dst, queue, total, cfg)
        == if a.Failed? then (u, [a])
           else (Run(u, src, dst, queue[1..], next, cfg).0, [a] + Run(u, src, dst, queue[1..], next, cfg).1)
  {
  }

  lemma TakeCons<T>(x: T, s: seq<T>, n: int)
    requires n >= 1
    ensures Take([x] + s, n) == [x] + Take(s, n - 1)
  {
    if n - 1 < |s| {
      assert ([x] + s)[..n] == [x] + s[..n - 1];
    }
  }

  /** A step that does not fail copies or archives exactly an eligible
      item. */
  lemma StepSelects(t: Tree, src: Path, dst: Path, name: string, cfg: CopyConfig)
    requires src + [name] in t
    ensures var a := Step(t, src, dst, name, cfg).1;
      !a.Failed? ==> (a.Counted() <==> Eligible(t, src, name, cfg))
  {
    StepRules(t, src, dst, name, cfg);
  }

  /** The rest of the queue is still listed after a step that kept every
      entry. */
  lemma RestStillListed(t: Tree, u: Tree, src: Path, queue: seq<string>)
    requires Preserves(t, u) && queue != []
    requires forall i :: 0 <= i < |queue| ==> src + [queue[i]] in t
    ensures forall i :: 0 <= i < |queue[1..]| ==> src + [queue[1..][i]] in u
  {
    forall i | 0 <= i < |queue[1..]|
      ensures src + [queue[1..][i]] in u
    {
      assert queue[1..][i] == queue[i + 1];
    }
  }

  lemma CountedNamesCons(a: Action, rest: seq<Action>)
    ensures CountedNames([a] + rest) == (if a.Counted() then [a.name] else []) + CountedNames(rest)
  {
    assert ([a] + rest)[1..] == rest;
  }

  lemma NoFailureCons(a: Action, rest: seq<Action>)
    requires forall i :: 0 <= i < |[a] + rest| ==> !([a] + rest)[i].Failed?
    ensures !a.Failed? && forall i :: 0 <= i < |rest| ==> !rest[i].Failed?
  {
    assert ([a] + rest)[0] == a;
    forall i | 0 <= i < |rest|
      ensures !rest[i].Failed?
    {
      assert ([a] + rest)[i + 1] == rest[i];
    }
  }

  lemma EligibleNamesCons(t: Tree, src: Path, queue: seq<string>, cfg: CopyConfig)
    requires queue != []
    ensures EligibleNames(t, src, queue, cfg)
              == (if Eligible(t, src, queue[0], cfg) then [queue[0]] else []) + EligibleNames(t, src, queue[1..], cfg)
  {
  }

  /** When no item fails, the copies and archives are exactly the first
      eligible entries of the listing, as many as the batch allows. */
  lemma {:induction false} RunPicksFirstEligible(t: Tree, src: Path, dst: Path, queue: seq<string>, total: nat, cfg: CopyConfig)
    requires forall i :: 0 <= i < |queue| ==> src + [queue[i]] in t
    requires var log := Run(t, src, dst, queue, total, cfg).1;
      forall i :: 0 <= i < |log| ==> !log[i].Failed?
    ensures CountedNames(Run(t, src, dst, queue, total, cfg).1)
              == Take(EligibleNames(t, src, queue, cfg), BatchLimit - total)
    decreases |queue|
  {
    if total < BatchLimit && queue != [] {
      var r := Step(t, src, dst, queue[0], cfg);
      var u, a := r.0, r.1;
      var next := if a.Counted() then total + 1 else total;
      var rest := Run(u, src, dst, queue[1..], next, cfg).1;
      RunUnfold(t, src, dst, queue, total, cfg);
      var log := Run(t, src, dst, queue, total, cfg).1;
      assert log[0] == a;
      assert !a.Failed?;
      assert log == [a] + rest;
      NoFailureCons(a, rest);
      StepSelects(t, src, dst, queue[0], cfg);
      StepPreserves(t, src, dst, queue[0], cfg);
      RestStillListed(t, u, src, queue);
      RunPicksFirstEligible(u, src, dst, queue[1..], next, cfg);
      EligibleNamesStable(t, u, src, queue[1..], cfg);
      CountedNamesCons(a, rest);
      EligibleNamesCons(t, src, queue, cfg);
      var es := EligibleNames(t, src, queue[1..], cfg);
      if a.Counted() {
        TakeCons(queue[0], es, BatchLimit - total);
      }
    }
  }

  /** The exclusions after a pass whose copies and archives were `done`. */
  function Remember(cfg: CopyConfig, done: seq<string>): CopyConfig {
    cfg.(excludedFolders := cfg.excludedFolders + Names(done), excludedFiles := cfg.excludedFiles + Names(done))
  }

  /** The elements of s that are not in x, in order. */
  function Without(s: seq<string>, x: set<string>): seq<string> {
    if s == [] then [] else (if s[0] in x then [] else [s[0]]) + Without(s[1..], x)
  }

  /** Excluding more names removes exactly those names from the selection. */
  lemma {:induction false} EligibleNamesRemember(t: Tree, src: Path, queue: seq<string>, cfg: CopyConfig, done: seq<string>)
    ensures EligibleNames(t, src, queue, Remember(cfg, done))
              == Without(EligibleNames(t, src, queue, cfg), Names(done))
    decreases |queue|
  {
    if queue != [] {
      var x := Names(done);
      var cfg' := Remember(cfg, done);
      EligibleNamesRemember(t, src, queue[1..], cfg, done);
      var es := EligibleNames(t, src, queue[1..], cfg);
      assert Eligible(t, src, queue[0], cfg') <==> Eligible(t, src, queue[0], cfg) && queue[0] !in x;
      assert EligibleNames(t, src, queue, cfg')
             == (if Eligible(t, src, queue[0], cfg') then [queue[0]] else []) + EligibleNames(t, src, queue[1..], cfg');
      assert EligibleNames(t, src, queue, cfg)
             == (if Eligible(t, src, queue[0], cfg) then [queue[0]] else []) + es;
      if Eligible(t, src, queue[0], cfg) {
        assert ([queue[0]] + es)[1..] == es;
        assert Without([queue[0]] + es, x) == (if queue[0] in x then [] else [queue[0]]) + Without(es, x);
      } else {
        assert [] + es == es;
      }
    }
  }

  lemma {:induction false} EligibleNamesDistinct(t: Tree, src: Path, queue: seq<string>, cfg: CopyConfig)
    requires Distinct(queue)
    ensures Distinct(EligibleNames(t, src, queue, cfg))
    ensures forall x :: x in EligibleNames(t, src, queue, cfg) ==> x in queue
    decreases |queue|
  {
    if queue != [] {
      var tail := queue[1..];
      assert Distinct(tail) by {
        forall i, j | 0 <= i < j < |tail|
          ensures tail[i] != tail[j]
        {
          assert tail[i] == queue[i + 1] && tail[j] == queue[j + 1];
        }
      }
      EligibleNamesDistinct(t, src, tail, cfg);
      var es := EligibleNames(t, src, tail, cfg);
      assert queue[0] !in tail by {
        forall i | 0 <= i < |tail|
          ensures tail[i] != queue[0]
        {
          assert tail[i] == queue[i + 1];
        }
      }
      assert forall x :: x in es ==> x in tail;
      assert forall x :: x in tail ==> x in queue;
    }
  }

  lemma {:induction false} WithoutNothing(s: seq<string>, x: set<string>)
    requires forall i :: 0 <= i < |s| ==> s[i] !in x
    ensures Without(s, x) == s
    decreases |s|
  {
    if s != [] {
      WithoutNothing(s[1..], x);
    }
  }

  /** In a list without repeats, dropping the names of a prefix leaves the
      rest of the list. */
  lemma {:induction false} WithoutPrefix(s: seq<string>, k: nat, x: set<string>)
    requires Distinct(s) && k <= |s|
    requires forall i :: 0 <= i < |s| ==> (s[i] in x <==> i < k)
    ensures Without(s, x) == s[k..]
    decreases |s|
  {
    if k == 0 {
      WithoutNothing(s, x);
    } else {
      WithoutPrefix(s[1..], k - 1, x);
    }
  }

  /** In a list without repeats, the names of its first n elements are
      exactly the elements at positions below n. */
  lemma TakeNames(es: seq<string>, n: nat)
    requires Distinct(es)
    ensures forall i :: 0 <= i < |es| ==> (es[i] in Names(Take(es, n)) <==> i < |Take(es, n)|)
  {
    var first := Take(es, n);
    forall i | 0 <= i < |es|
      ensures es[i] in Names(first) <==> i < |first|
    {
      if es[i] in Names(first) {
        var j :| 0 <= j < |first| && first[j] == es[i];
        assert es[j] == first[j];
      }
      if i < |first| {
        assert first[i] == es[i];
      }
    }
  }

  /** A second call on the same listing, with the first call's copies and
      archives added to the exclusions, takes the next eligible entries:
      nothing is staged twice and nothing eligible is passed over. */
  lemma SecondPassTakesTheRest(t: Tree, src: Path, dst: Path, listing: seq<string>, cfg: CopyConfig)
    requires Distinct(listing)
    requires forall i :: 0 <= i < |listing| ==> src + [listing[i]] in t
    requires var log := Run(t, src, dst, listing, 0, cfg).1;
      forall i :: 0 <= i < |log| ==> !log[i].Failed?
    ensures CountedNames(Run(t, src, dst, listing, 0, cfg).1) == Take(EligibleNames(t, src, listing, cfg), BatchLimit)
    ensures var first := CountedNames(Run(t, src, dst, listing, 0, cfg).1);
      EligibleNames(Run(t, src, dst, listing, 0, cfg).0, src, listing, Remember(cfg, first))
        == EligibleNames(t, src, listing, cfg)[|first|..]
  {
    var u := Run(t, src, dst, listing, 0, cfg).0;
    var first := CountedNames(Run(t, src, dst, listing, 0, cfg).1);
    var es := EligibleNames(t, src, listing, cfg);
    RunPicksFirstEligible(t, src, dst, listing, 0, cfg);
    assert first == Take(es, BatchLimit);
    RunPreserves(t, src, dst, listing, 0, cfg);
    EligibleNamesStable(t, u, src, listing, cfg);
    EligibleNamesRemember(u, src, listing, cfg, first);
    EligibleNamesDistinct(t, src, listing, cfg);
    TakeNames(es, BatchLimit);
    WithoutPrefix(es, |first|, Names(first));
  }

  /** The body of `processNextItem` for one item of the listing, up to
      the point where it continues with the next one. */
  method ProcessItem(fs: FileSystem, src: Path, dst: Path, item: string, cfg: CopyConfig) returns (action: Action)
    modifies fs
    ensures (fs.nodes, action) == Step(old(fs.nodes), src, dst, item, cfg)
  {
    var from := src + [item];
    var to := dst + [item];
    var st := fs.StatSync(from);
    if st.Err? {
      return Failed(item, st.error);
    }
    if st.value.Dir? {
      if item !in cfg.excludedFolders {
        if !EndsWith(item, ".zip") {
          var zip := dst + [item + ".zip"];
          var written := fs.WriteStream(zip, ZipOf(from));
          action := if written.Fail? then Failed(item, written.error) else Archived(item, zip);
        } else {
          action := Skipped(item, ZipNamedFolder);
        }
      } else {
        action := Skipped(item, ExcludedFolder);
      }
    } else {
      var extension := Lower(ExtName(item));
      if extension in cfg.extensions {
        if item !in cfg.excludedFiles {
          var copied := fs.CopyFileSync(from, to);
          action := if copied.Fail? then Failed(item, copied.error) else Copied(item, to);
        } else {
          action := Skipped(item, ExcludedFile);
        }
      } else {
        action := Skipped(item, ExtensionNotAllowed);
      }
    }
  }

  /** A scan's result with `log` in front of its entries. */
  function After(log: seq<Action>, r: (Tree, seq<Action>)): (Tree, seq<Action>) {
    (r.0, log + r.1)
  }

  /** One more item processed: the state the loop of ProcessListing keeps. */
  lemma RunAdvance(t: Tree, src: Path, dst: Path, queue: seq<string>, total: nat, cfg: CopyConfig, log: seq<Action>)
    requires total < BatchLimit && queue != []
    ensures var (u, a) := Step(t, src, dst, queue[0], cfg);
      var next := if a.Counted() then total + 1 else total;
      && (a.Failed? ==> After(log, Run(t, src, dst, queue, total, cfg)) == (u, log + [a]))
      && (!a.Failed? ==> After(log, Run(t, src, dst, queue, total, cfg)) == After(log + [a], Run(u, src, dst, queue[1..], next, cfg)))
  {
    RunUnfold(t, src, dst, queue, total, cfg);
    var (u, a) := Step(t, src, dst, queue[0], cfg);
    var next := if a.Counted() then total + 1 else total;
    assert log + ([a] + Run(u, src, dst, queue[1..], next, cfg).1) == (log + [a]) + Run(u, src, dst, queue[1..], next, cfg).1;
  }

  /** The chain of `processNextItem` calls over one listing: consume it
      from the front until five operations have completed, the listing is
      empty, or an item throws. */
  method ProcessListing(fs: FileSystem, src: Path, dst: Path, items: seq<string>, cfg: CopyConfig) returns (log: seq<Action>)
    requires fs.Valid()
    modifies fs
    ensures fs.Valid()
    ensures (fs.nodes, log) == Run(old(fs.nodes), src, dst, items, 0, cfg)
  {
    ghost var goal := Run(fs.nodes, src, dst, items, 0, cfg);
    assert [] + goal.1 == goal.1;
    var queue := items;
    var totalCopied := 0;
    log := [];
    var halted := false;
    while !halted && totalCopied < BatchLimit && queue != []
      invariant fs.Valid()
      invariant 0 <= totalCopied <= BatchLimit
      invariant !halted ==> goal == After(log, Run(fs.nodes, src, dst, queue, totalCopied, cfg))
      invariant halted ==> goal == (fs.nodes, log)
      decreases |queue|
    {
      RunAdvance(fs.nodes, src, dst, queue, totalCopied, cfg, log);
      StepPreserves(fs.nodes, src, dst, queue[0], cfg);
      var item := queue[0];
      queue := queue[1..];
      var action := ProcessItem(fs, src, dst, item, cfg);
      log := log + [action];
      if action.Failed? {
        halted := true;
      } else if action.Counted() {
        totalCopied := totalCopied + 1;
      }
    }
    if !halted {
      assert Run(fs.nodes, src, dst, queue, totalCopied, cfg) == (fs.nodes, []);
      assert log + [] == log;
    }
  }

  /** `copyFilesWithCondition`, as the source runs it: create the
      destination if it is missing, list the source once, then process the
      listing. */
  method CopyFilesWithCondition(fs: FileSystem, src: Path, dst: Path, cfg: CopyConfig) returns (outcome: CopyOutcome)
    requires fs.Valid()
    modifies fs
    ensures fs.Valid()
    ensures match Prepare(old(fs.nodes), dst)
      case Err(e) => outcome == SetupFailed(e) && fs.nodes == old(fs.nodes)
      case Ok(t) =>
        if !IsDirAt(t, src) then outcome.SetupFailed? && fs.nodes == t
        else
          && outcome.Scanned?
          && IsListing(t, src, outcome.listing)
          && (fs.nodes, outcome.log) == Run(t, src, dst, outcome.listing, 0, cfg)
  {
    var present := fs.ExistsSync(dst);
    if !present {
      var made := fs.MkdirSync(dst);
      if made.Fail? {
        return SetupFailed(made.error);
      }
    }
    assert Prepare(old(fs.nodes), dst) == Ok(fs.nodes);
    var listed := fs.ReadDirSync(src);
    if listed.Err? {
      return SetupFailed(listed.error);
    }
    var log := ProcessListing(fs, src, dst, listed.value, cfg);
    outcome := Scanned(listed.value, log);
  }
}
