/**
  `Command.handle`: walk every configured locale directory, take the target
  language of each file from the name of its directory's parent, skip files
  whose language the locale filter excludes, translate the rest in walk order,
  and stop the whole command at the first file whose name does not end in
  `.po`.
 */
module Selection {
  import opened Wrappers
  import Catalog

  const SEP: char := '/'
  const PO_SUFFIX: string := ".po"

  /** One step of `os.walk`: a directory and the names of the files directly in it (the subdirectory names go unused). */
  datatype WalkStep = WalkStep(root: string, files: seq<string>)

  /** The walk of one locale directory. */
  type Walker = string -> seq<WalkStep>

  /** A file, named as `os.path.join(root, name)` names it. */
  datatype Entry = Entry(root: string, name: string)

  /** A call of `translate_file`. */
  datatype Job = Job(root: string, name: string, language: string)

  /** The two settings the command reads: `USE_I18N` and `LOCALE_PATHS`. */
  datatype Settings = Settings(useI18n: bool, localePaths: seq<string>)

  /** The catalogs on disk, each as its list of lines. */
  type Disk = map<Entry, seq<string>>

  datatype CommandError =
    | I18nDisabled
    | LocalePathsMissing
    | FileMissing(entry: Entry)
    | TranslateFailed(entry: Entry, cause: Catalog.FileError)

  /** How the command ended: by returning, or by an exception that aborts it. */
  datatype Outcome = Completed | Aborted(error: CommandError)

  /** `s.endswith(suffix)` */
  predicate EndsWith(s: string, suffix: string) {
    |suffix| <= |s| && s[|s| - |suffix|..] == suffix
  }

  // ---------------------------------------------------------------------------
  // Paths, as `posixpath` computes them

  /** `p.rfind('/') + 1`: where the last component of `p` starts. */
  function ComponentStart(p: string): (start: nat)
    ensures start <= |p|
  {
    if |p| == 0 then 0
    else if p[|p| - 1] == SEP then |p|
    else ComponentStart(p[..|p| - 1])
  }

  /** `s.rstrip('/')` */
  function StripTrailingSeps(s: string): string {
    if |s| > 0 && s[|s| - 1] == SEP then StripTrailingSeps(s[..|s| - 1]) else s
  }

  predicate AllSeps(s: string) {
    forall k :: 0 <= k < |s| ==> s[k] == SEP
  }

  /** `os.path.dirname(p)` */
  function Dirname(p: string): string {
    var head := p[..ComponentStart(p)];
    if |head| > 0 && !AllSeps(head) then StripTrailingSeps(head) else head
  }

  /** `os.path.basename(p)` */
  function Basename(p: string): string {
    p[ComponentStart(p)..]
  }

  /** `os.path.basename(os.path.dirname(root))`: the locale directory above `LC_MESSAGES`. */
  function TargetLanguage(root: string): string {
    Basename(Dirname(root))
  }

  /** The locale filter: an empty list lets every language through. */
  predicate Wanted(language: string, locales: seq<string>) {
    |locales| == 0 || language in locales
  }

  // ---------------------------------------------------------------------------
  // Selection

  function FileEntries(root: string, files: seq<string>): seq<Entry> {
    if |files| == 0 then [] else [Entry(root, files[0])] + FileEntries(root, files[1..])
  }

  function StepEntries(steps: seq<WalkStep>): seq<Entry> {
    if |steps| == 0 then [] else FileEntries(steps[0].root, steps[0].files) + StepEntries(steps[1..])
  }

  /** Every file the three nested loops visit, in visiting order. */
  function Entries(localePaths: seq<string>, walk: Walker): seq<Entry> {
    if |localePaths| == 0 then [] else StepEntries(walk(localePaths[0])) + Entries(localePaths[1..], walk)
  }

  predicate AllPo(entries: seq<Entry>) {
    forall k :: 0 <= k < |entries| ==> EndsWith(entries[k].name, PO_SUFFIX)
  }

  function JobOf(entry: Entry): Job {
    Job(entry.root, entry.name, TargetLanguage(entry.root))
  }

  function JobEntry(job: Job): Entry {
    Entry(job.root, job.name)
  }

  /**
    The files the command translates, in order: those the locale filter lets
    through, up to the first file not ending in `.po`, where the command
    returns.
   */
  function Jobs(entries: seq<Entry>, locales: seq<string>): seq<Job>
    decreases |entries|, 1
  {
    if |entries| == 0 then [] else JobsFrom(entries[0], entries[1..], locales)
  }

  /** The jobs from `entry` on, with `later` the files visited after it. */
  function JobsFrom(entry: Entry, later: seq<Entry>, locales: seq<string>): seq<Job>
    decreases |later| + 1, 0
  {
    if !EndsWith(entry.name, PO_SUFFIX) then []
    else if Wanted(TargetLanguage(entry.root), locales) then [JobOf(entry)] + Jobs(later, locales)
    else Jobs(later, locales)
  }

  // ---------------------------------------------------------------------------
  // Running

  /** One call of `translate_file` on the disk. */
  function TranslateJob(disk: Disk, job: Job, translate: Catalog.Translator): Result<Disk, CommandError> {
    var entry := JobEntry(job);
    if entry !in disk then Failure(FileMissing(entry))
    else
      match Catalog.TranslateFileSpec(disk[entry], translate, job.language)
      case Failure(cause) => Failure(TranslateFailed(entry, cause))
      case Success(lines) => Success(disk[entry := lines])
  }

  /**
    The jobs run in order until one raises; the files written before that stay
    written.
   */
  function Run(jobs: seq<Job>, disk: Disk, translate: Catalog.Translator): (Disk, Outcome)
    decreases |jobs|, 1
  {
    if |jobs| == 0 then (disk, Completed) else RunFrom(jobs[0], jobs[1..], disk, translate)
  }

  /** Run `job`, then, unless it raised, the jobs after it. */
  function RunFrom(job: Job, later: seq<Job>, disk: Disk, translate: Catalog.Translator): (Disk, Outcome)
    decreases |later| + 1, 0
  {
    match TranslateJob(disk, job, translate)
    case Failure(error) => (disk, Aborted(error))
    case Success(next) => Run(later, next, translate)
  }

  /** The whole command: the settings checks, then the selected jobs run in walk order. */
  function HandleSpec(settings: Settings, locales: seq<string>, walk: Walker, disk: Disk,
                      translate: Catalog.Translator): (Disk, Outcome)
  {
    if !settings.useI18n then (disk, Aborted(I18nDisabled))
    else if |settings.localePaths| == 0 then (disk, Aborted(LocalePathsMissing))
    else Run(Jobs(Entries(settings.localePaths, walk), locales), disk, translate)
  }

  /**
    `translate_file(root, file_name, target_language)` with its file access:
    read the catalog's lines, rewrite them and write them back. This is the
    executable twin of `TranslateJob`, running `Catalog.TranslateFile` where
    the function uses `Catalog.TranslateFileSpec`.
   */
  method TranslateOnDisk(disk: Disk, root: string, fileName: string, targetLanguage: string,
                         translate: Catalog.Translator)
    returns (result: Result<Disk, CommandError>)
    ensures result == TranslateJob(disk, Job(root, fileName, targetLanguage), translate)
  {
    var entry := Entry(root, fileName);
    if entry !in disk {
      return Failure(FileMissing(entry));
    }
    var lines := Catalog.TranslateFile(disk[entry], translate, targetLanguage);
    if lines.Failure? {
      return Failure(TranslateFailed(entry, lines.error));
    }
    return Success(disk[entry := lines.value]);
  }

  /** Where the loops of `handle` stand: still walking, or returned with an outcome. */
  datatype Progress = Walking | Returned(outcome: Outcome)

  /**
    The command's result from here on: the returned outcome, or the run of the
    files still to be visited.
   */
  function Resume(progress: Progress, disk: Disk, later: seq<Entry>, locales: seq<string>,
                  translate: Catalog.Translator): (Disk, Outcome)
  {
    if progress.Returned? then (disk, progress.outcome) else Run(Jobs(later, locales), disk, translate)
  }

  /**
    The innermost loop of `handle`, over the files of one directory of the walk:
    return at a file not ending in `.po`, skip a file whose language the locale
    filter excludes, translate the others.
   */
  method TranslateFiles(disk: Disk, root: string, files: seq<string>, locales: seq<string>,
                        translate: Catalog.Translator, ghost later: seq<Entry>)
    returns (written: Disk, progress: Progress)
    ensures Run(Jobs(FileEntries(root, files) + later, locales), disk, translate)
         == Resume(progress, written, later, locales, translate)
  {
    written := disk;
    ghost var final := Run(Jobs(FileEntries(root, files) + later, locales), disk, translate);
    assert files[0..] == files;
    for f := 0 to |files|
      invariant final == Run(Jobs(FileEntries(root, files[f..]) + later, locales), written, translate)
    {
      var file := files[f];
      ghost var rest := FileEntries(root, files[f + 1..]) + later;
      ghost var visit := Jobs([Entry(root, file)] + rest, locales);
      assert final == Run(visit, written, translate) by {
        assert files[f..][1..] == files[f + 1..];
        assert FileEntries(root, files[f..]) + later == [Entry(root, file)] + rest;
      }
      if !EndsWith(file, PO_SUFFIX) {
        assert visit == [] by {
          JobsCons(Entry(root, file), rest, locales);
        }
        return written, Returned(Completed);
      }
      var targetLanguage := TargetLanguage(root);
      if |locales| > 0 && targetLanguage !in locales {
        assert visit == Jobs(rest, locales) by {
          JobsCons(Entry(root, file), rest, locales);
        }
        continue;
      }
      var result := TranslateOnDisk(written, root, file, targetLanguage, translate);
      assert Run(visit, written, translate)
          == if result.Failure? then (written, Aborted(result.error))
             else Run(Jobs(rest, locales), result.value, translate) by {
        JobsCons(Entry(root, file), rest, locales);
        RunCons(Job(root, file, targetLanguage), Jobs(rest, locales), written, translate);
      }
      if result.Failure? {
        return written, Returned(Aborted(result.error));
      }
      written := result.value;
    }
    assert FileEntries(root, files[|files|..]) + later == later;
    progress := Walking;
  }

  /** The middle loop of `handle`, over the directories `os.walk` yields under one locale path. */
  method TranslateWalk(disk: Disk, steps: seq<WalkStep>, locales: seq<string>,
                       translate: Catalog.Translator, ghost later: seq<Entry>)
    returns (written: Disk, progress: Progress)
    ensures Run(Jobs(StepEntries(steps) + later, locales), disk, translate)
         == Resume(progress, written, later, locales, translate)
  {
    written := disk;
    ghost var final := Run(Jobs(StepEntries(steps) + later, locales), disk, translate);
    assert steps[0..] == steps;
    for s := 0 to |steps|
      invariant final == Run(Jobs(StepEntries(steps[s..]) + later, locales), written, translate)
    {
      ghost var rest := StepEntries(steps[s + 1..]) + later;
      assert StepEntries(steps[s..]) + later == FileEntries(steps[s].root, steps[s].files) + rest by {
        assert steps[s..][1..] == steps[s + 1..];
      }
      written, progress := TranslateFiles(written, steps[s].root, steps[s].files, locales, translate, rest);
      if progress.Returned? {
        return;
      }
    }
    assert StepEntries(steps[|steps|..]) + later == later;
    progress := Walking;
  }

  /** `Command.handle`, with the settings, `os.walk`, the disk and the translator as parameters. */
  method Handle(settings: Settings, locales: seq<string>, walk: Walker, disk: Disk,
                translate: Catalog.Translator)
    returns (written: Disk, outcome: Outcome)
    ensures (written, outcome) == HandleSpec(settings, locales, walk, disk, translate)
  {
    written := disk;
    if !settings.useI18n {
      return written, Aborted(I18nDisabled);
    }
    if |settings.localePaths| == 0 {
      return written, Aborted(LocalePathsMissing);
    }
    var paths := settings.localePaths;
    // The command's result, determined at every point by the disk so far and the files not yet visited.
    ghost var final := HandleSpec(settings, locales, walk, disk, translate);
    assert paths[0..] == paths;
    for d := 0 to |paths|
      invariant final == Run(Jobs(Entries(paths[d..], walk), locales), written, translate)
    {
      EntriesCons(paths, d, walk);
      var progress;
      written, progress := TranslateWalk(written, walk(paths[d]), locales, translate, Entries(paths[d + 1..], walk));
      if progress.Returned? {
        return written, progress.outcome;
      }
    }
    assert Entries(paths[|paths|..], walk) == [];
    outcome := Completed;
  }

  // ---------------------------------------------------------------------------
  // Properties of the selection

  /**
    Every job is a `.po` file of the walk that the locale filter lets through,
    and is translated into the language its path names.
   */
  lemma {:induction false} JobsSound(entries: seq<Entry>, locales: seq<string>)
    ensures forall k :: 0 <= k < |Jobs(entries, locales)| ==>
      var job := Jobs(entries, locales)[k];
      && EndsWith(job.name, PO_SUFFIX)
      && job.language == TargetLanguage(job.root)
      && Wanted(job.language, locales)
      && JobEntry(job) in entries
  {
    if |entries| > 0 && EndsWith(entries[0].name, PO_SUFFIX) {
      JobsSound(entries[1..], locales);
      assert Jobs(entries, locales) == JobsFrom(entries[0], entries[1..], locales);
      forall e | e in entries[1..]
        ensures e in entries
      {
      }
    }
  }

  /**
    No file is created or removed, and a file that no job names is left as it
    was, whether the run completes or aborts.
   */
  lemma {:induction false} RunFrame(jobs: seq<Job>, disk: Disk, translate: Catalog.Translator, entry: Entry)
    ensures Run(jobs, disk, translate).0.Keys == disk.Keys
    ensures entry in disk && (forall k :: 0 <= k < |jobs| ==> JobEntry(jobs[k]) != entry)
      ==> Run(jobs, disk, translate).0[entry] == disk[entry]
  {
    if |jobs| > 0 {
      match TranslateJob(disk, jobs[0], translate)
      case Failure(_) =>
      case Success(next) =>
        RunFrame(jobs[1..], next, translate, entry);
        if entry in disk && (forall k :: 0 <= k < |jobs| ==> JobEntry(jobs[k]) != entry) {
          assert JobEntry(jobs[0]) != entry;
          forall k | 0 <= k < |jobs| - 1
            ensures JobEntry(jobs[1..][k]) != entry
          {
            assert jobs[1..][k] == jobs[k + 1];
          }
        }
    }
  }

  /**
    The command creates and removes no file, and leaves unchanged every file
    the walk does not reach and every file whose language the locale filter
    excludes.
   */
  lemma {:induction false} HandleFrame(settings: Settings, locales: seq<string>, walk: Walker, disk: Disk,
                    translate: Catalog.Translator, entry: Entry)
    ensures HandleSpec(settings, locales, walk, disk, translate).0.Keys == disk.Keys
    ensures entry in disk
         && (entry !in Entries(settings.localePaths, walk) || !Wanted(TargetLanguage(entry.root), locales))
      ==> HandleSpec(settings, locales, walk, disk, translate).0[entry] == disk[entry]
  {
    if settings.useI18n && |settings.localePaths| > 0 {
      var entries := Entries(settings.localePaths, walk);
      var jobs := Jobs(entries, locales);
      JobsSound(entries, locales);
      RunFrame(jobs, disk, translate, entry);
      if entry !in entries || !Wanted(TargetLanguage(entry.root), locales) {
        forall k | 0 <= k < |jobs|
          ensures JobEntry(jobs[k]) != entry
        {
        }
      }
    }
  }

  /** The files of the remaining locale paths: the next path's walk, then the rest. */
  lemma {:induction false} EntriesCons(paths: seq<string>, d: nat, walk: Walker)
    requires d < |paths|
    ensures Entries(paths[d..], walk) == StepEntries(walk(paths[d])) + Entries(paths[d + 1..], walk)
  {
  }

  /** The selection at one file: stop, skip, or take it as the next job. */
  lemma {:induction false} JobsCons(entry: Entry, rest: seq<Entry>, locales: seq<string>)
    ensures Jobs([entry] + rest, locales)
         == if !EndsWith(entry.name, PO_SUFFIX) then []
            else if Wanted(TargetLanguage(entry.root), locales) then [JobOf(entry)] + Jobs(rest, locales)
            else Jobs(rest, locales)
  {
  }

  /** The run at one job: abort with its error, or go on with the disk it left. */
  lemma {:induction false} RunCons(job: Job, jobs: seq<Job>, disk: Disk, translate: Catalog.Translator)
    ensures var step := TranslateJob(disk, job, translate);
      Run([job] + jobs, disk, translate)
      == if step.Failure? then (disk, Aborted(step.error)) else Run(jobs, step.value, translate)
  {
  }

  /** Selection splits at any point before which every file is a `.po` file. */
  lemma {:induction false} JobsAppend(a: seq<Entry>, b: seq<Entry>, locales: seq<string>)
    requires AllPo(a)
    ensures Jobs(a + b, locales) == Jobs(a, locales) + Jobs(b, locales)
  {
    if |a| > 0 {
      assert (a + b)[0] == a[0];
      assert (a + b)[1..] == a[1..] + b;
      JobsAppend(a[1..], b, locales);
    } else {
      assert a + b == b;
    }
  }

  /** Running two lists of jobs is running the first and, if it completed, the second. */
  lemma {:induction false} RunAppend(a: seq<Job>, b: seq<Job>, disk: Disk, translate: Catalog.Translator)
    ensures Run(a + b, disk, translate)
         == (var (next, outcome) := Run(a, disk, translate);
             if outcome.Completed? then Run(b, next, translate) else (next, outcome))
  {
    if |a| > 0 {
      assert (a + b)[0] == a[0];
      assert (a + b)[1..] == a[1..] + b;
      match TranslateJob(disk, a[0], translate)
      case Failure(_) =>
      case Success(next) => RunAppend(a[1..], b, next, translate);
    } else {
      assert a + b == b;
    }
  }

  /**
    The first file not ending in `.po` ends the command: nothing at or after it
    in the walk is ever translated.
   */
  lemma {:induction false} StopsAtFirstNonPo(entries: seq<Entry>, locales: seq<string>, p: nat)
    requires p < |entries| && !EndsWith(entries[p].name, PO_SUFFIX)
    ensures Jobs(entries, locales) == Jobs(entries[..p], locales)
  {
    if p > 0 && EndsWith(entries[0].name, PO_SUFFIX) {
      assert entries[..p][1..] == entries[1..][..p - 1];
      StopsAtFirstNonPo(entries[1..], locales, p - 1);
    }
  }

  /**
    When every file is a `.po` file, a file is translated exactly when the
    locale filter lets its language through.
   */
  lemma {:induction false} SelectsExactlyWanted(entries: seq<Entry>, locales: seq<string>, entry: Entry)
    requires AllPo(entries) && entry in entries
    ensures JobOf(entry) in Jobs(entries, locales) <==> Wanted(TargetLanguage(entry.root), locales)
  {
    JobsSound(entries, locales);
    if entry != entries[0] {
      SelectsExactlyWanted(entries[1..], locales, entry);
    }
  }

  /** The language of `<parent>/<language>/<leaf>` is `<language>`. */
  lemma {:induction false} LanguageFromPath(parent: string, language: string, leaf: string)
    requires |language| > 0 && SEP !in language && SEP !in leaf
    ensures TargetLanguage(parent + [SEP] + language + [SEP] + leaf) == language
  {
    var dir := parent + [SEP] + language;
    ComponentStartAfter(dir + [SEP], leaf);
    var root := dir + [SEP] + leaf;
    assert root[..|dir| + 1] == dir + [SEP];
    var head := dir + [SEP];
    assert head[|head| - 1] == SEP;
    assert head[..|head| - 1] == dir;
    assert head[|head| - 2] == language[|language| - 1];
    assert !AllSeps(head);
    assert dir[|dir| - 1] == language[|language| - 1];
    assert StripTrailingSeps(dir) == dir;
    assert StripTrailingSeps(head) == dir;
    assert Dirname(root) == dir;
    ComponentStartAfter(parent + [SEP], language);
  }

  /** A separator followed by a separator-free component: the component starts just after it. */
  lemma {:induction false} ComponentStartAfter(prefix: string, component: string)
    requires |prefix| > 0 && prefix[|prefix| - 1] == SEP && SEP !in component
    ensures ComponentStart(prefix + component) == |prefix|
  {
    if |component| > 0 {
      var p := prefix + component;
      assert p[..|p| - 1] == prefix + component[..|component| - 1];
      ComponentStartAfter(prefix, component[..|component| - 1]);
    } else {
      assert prefix + component == prefix;
    }
  }
}
