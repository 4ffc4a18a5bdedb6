/**
 * Response writer (tools/convert.py, _safe_write_files). The file system is
 * a tree: a map from resolved paths to file contents plus the set of
 * existing directories. Entries are processed in order; the first invalid
 * or unsafe entry stops the batch, and what earlier entries wrote stays.
 */
module Writer {
  import opened Wrappers
  import opened Text
  import opened Paths

  /** A JSON value as the writer tells them apart: a string, or anything else. */
  datatype Value = Str(s: string) | NonString

  /**
   * One element of the payload's "files" list: a JSON object, seen through
   * its "path" and "content" members (None when the member is absent), or
   * some other JSON value.
   */
  datatype Entry = Object(path: Option<Value>, content: Option<Value>) | NotAnObject

  /** The exceptions raised for one entry. */
  datatype WriteError =
    | NoFields                    // f.get on a non-object: AttributeError
    | InvalidPath                 // path absent, empty or not a string: ValueError
    | InvalidContent(rel: string) // content not a string: ValueError
    | OutsideRepo(rel: string)    // resolves outside the repository root: ValueError
    | AlreadyExists(rel: string)  // destination exists and no force: FileExistsError
    | ParentIsFile(rel: string)   // mkdir meets a file on the way: OSError
    | IsDirectory(rel: string)    // write_text on a directory: IsADirectoryError

  /** What the writer reports on stdout for an entry it accepts. */
  datatype Action = WouldWrite(rel: string, size: nat) | Wrote(rel: string)

  datatype Disk = Disk(files: map<Path, string>, dirs: set<Path>)

  /** The entry that stopped the batch, by position, and why. */
  datatype Rejection = Rejection(index: nat, error: WriteError)

  datatype Outcome = Outcome(disk: Disk, log: seq<Action>, failure: Option<Rejection>)

  /** A well-formed tree: "/" exists, every ancestor of a file or directory is a directory. */
  predicate IsTree(d: Disk)
  {
    && [] in d.dirs
    && d.files.Keys !! d.dirs
    && (forall p, k :: p in d.files && 0 <= k < |p| ==> p[..k] in d.dirs)
    && (forall p, k :: p in d.dirs && 0 <= k < |p| ==> p[..k] in d.dirs)
  }

  /** Path.exists() */
  predicate Exists(d: Disk, p: Path)
  {
    p in d.files || p in d.dirs
  }

  /** The proper ancestors of `p`, which mkdir(parents=True) on its parent creates. */
  function Ancestors(p: Path): set<Path>
  {
    set k | 0 <= k < |p| :: p[..k]
  }

  /** f.get(key, "") for a member looked up as `member` */
  function Get(member: Option<Value>): Value
  {
    if member.Some? then member.value else Str("")
  }

  /** The relative path of an entry, when it has an acceptable one. */
  predicate HasValidPath(e: Entry)
  {
    e.Object? && Get(e.path).Str? && Get(e.path).s != ""
  }

  function RelPath(e: Entry): string
    requires HasValidPath(e)
  {
    Get(e.path).s
  }

  /** Where an entry with a valid path would be written. */
  function Destination(root: Path, e: Entry): Path
    requires HasValidPath(e)
  {
    Resolve(root, RelPath(e))
  }

  /** An entry that passed the shape and containment checks. */
  datatype Target = Target(rel: string, content: string, out: Path)

  /** The checks made before the file system is consulted. */
  function Validate(root: Path, e: Entry): Result<Target, WriteError>
  {
    match e
    case NotAnObject => Failure(NoFields)
    case Object(path, content) =>
      var rel := Get(path);
      var content := Get(content);
      if !rel.Str? || rel.s == "" then Failure(InvalidPath)
      else if !content.Str? then Failure(InvalidContent(rel.s))
      else
        var out := Resolve(root, rel.s);
        if !Within(root, out) then Failure(OutsideRepo(rel.s))
        else Success(Target(rel.s, content.s, out))
  }

  /** Some proper ancestor of `p` is a file. */
  predicate AncestorIsFile(d: Disk, p: Path)
  {
    exists k :: 0 <= k < |p| && p[..k] in d.files
  }

  /** The existence check, the dry-run report, mkdir and write_text for a validated entry. */
  function Commit(d: Disk, t: Target, dryRun: bool, force: bool): Result<(Disk, Action), WriteError>
  {
    if Exists(d, t.out) && !force then Failure(AlreadyExists(t.rel))
    else if dryRun then Success((d, WouldWrite(t.rel, |t.content|)))
    else if AncestorIsFile(d, t.out) then Failure(ParentIsFile(t.rel))
    else if t.out in d.dirs then Failure(IsDirectory(t.rel))
    else Success((Disk(d.files[t.out := t.content], d.dirs + Ancestors(t.out)), Wrote(t.rel)))
  }

  /** One iteration of the loop: the new disk and the report line, or the exception. */
  function Step(d: Disk, root: Path, e: Entry, dryRun: bool, force: bool): Result<(Disk, Action), WriteError>
  {
    match Validate(root, e)
    case Failure(err) => Failure(err)
    case Success(t) => Commit(d, t, dryRun, force)
  }

  /** Prefix `log` and shift the failing index by `n`: `n` entries were handled before. */
  function After(log: seq<Action>, n: nat, o: Outcome): Outcome
  {
    Outcome(o.disk, log + o.log,
            if o.failure.Some? then Some(Rejection(o.failure.value.index + n, o.failure.value.error)) else None)
  }

  /** A loop body: from the disk and an entry, the new disk and report line, or the exception. */
  type StepFn = (Disk, Entry) -> Result<(Disk, Action), WriteError>

  /**
   * A loop over `entries` that runs `step` on each in order and stops at
   * the first exception, keeping the disk as it then is.
   */
  function Batch(step: StepFn, d: Disk, entries: seq<Entry>): Outcome
    decreases |entries|
  {
    if entries == [] then Outcome(d, [], None)
    else
      match step(d, entries[0])
      case Failure(err) => Outcome(d, [], Some(Rejection(0, err)))
      case Success((d', a)) => After([a], 1, Batch(step, d', entries[1..]))
  }

  /** The loop of _safe_write_files. */
  function Run(d: Disk, root: Path, entries: seq<Entry>, dryRun: bool, force: bool): Outcome
  {
    Batch((x, e) => Step(x, root, e, dryRun, force), d, entries)
  }

  /** The loop handles the first entry, then the rest from the disk it leaves. */
  lemma RunFirst(d: Disk, root: Path, entries: seq<Entry>, dryRun: bool, force: bool)
    requires entries != []
    ensures var r := Step(d, root, entries[0], dryRun, force);
      Run(d, root, entries, dryRun, force)
        == if r.Failure? then Outcome(d, [], Some(Rejection(0, r.error)))
           else After([r.value.1], 1, Run(r.value.0, root, entries[1..], dryRun, force))
  {
  }

  /** After `i` entries handled with report `log` and disk `d`, entry i succeeds. */
  lemma BatchAdvance(step: StepFn, d0: Disk, d: Disk, entries: seq<Entry>, i: nat, log: seq<Action>)
    requires i < |entries|
    requires Batch(step, d0, entries) == After(log, i, Batch(step, d, entries[i..]))
    requires step(d, entries[i]).Success?
    ensures var (d', a) := step(d, entries[i]).value;
      Batch(step, d0, entries) == After(log + [a], i + 1, Batch(step, d', entries[i + 1..]))
  {
    assert entries[i..][0] == entries[i] && entries[i..][1..] == entries[i + 1..];
    var (d', a) := step(d, entries[i]).value;
    var rest := Batch(step, d', entries[i + 1..]);
    assert log + ([a] + rest.log) == (log + [a]) + rest.log;
  }

  /** After `i` entries handled with report `log` and disk `d`, entry i raises. */
  lemma BatchStops(step: StepFn, d0: Disk, d: Disk, entries: seq<Entry>, i: nat, log: seq<Action>)
    requires i < |entries|
    requires Batch(step, d0, entries) == After(log, i, Batch(step, d, entries[i..]))
    requires step(d, entries[i]).Failure?
    ensures Batch(step, d0, entries) == Outcome(d, log, Some(Rejection(i, step(d, entries[i]).error)))
  {
    assert entries[i..][0] == entries[i];
  }

  // ---------------------------------------------------------------------
  // One entry

  /**
   * The checks that raise before anything happens to an entry: a missing,
   * empty or non-string path; a non-string content; a destination outside
   * the root; an existing destination without force.
   */
  lemma StepRejects(d: Disk, root: Path, e: Entry, dryRun: bool, force: bool)
    ensures e.Object? && !HasValidPath(e) ==> Step(d, root, e, dryRun, force) == Failure(InvalidPath)
    ensures HasValidPath(e) && !Get(e.content).Str? ==>
              Step(d, root, e, dryRun, force) == Failure(InvalidContent(RelPath(e)))
    ensures HasValidPath(e) && Get(e.content).Str? && !Within(root, Destination(root, e)) ==>
              Step(d, root, e, dryRun, force) == Failure(OutsideRepo(RelPath(e)))
    ensures HasValidPath(e) && Get(e.content).Str? && Within(root, Destination(root, e))
            && Exists(d, Destination(root, e)) && !force ==>
              Step(d, root, e, dryRun, force) == Failure(AlreadyExists(RelPath(e)))
  {
  }

  /**
   * An accepted entry: its destination lies within the root; in dry-run mode
   * the disk is untouched; otherwise only the destination's contents change,
   * to exactly the entry's content, and only its ancestors become directories.
   */
  lemma StepAccepted(d: Disk, root: Path, e: Entry, dryRun: bool, force: bool)
    requires Step(d, root, e, dryRun, force).Success?
    ensures HasValidPath(e) && Within(root, Destination(root, e))
    ensures Get(e.content).Str?
    ensures !force ==> !Exists(d, Destination(root, e))
    ensures var (d', a) := Step(d, root, e, dryRun, force).value;
      && (dryRun ==> d' == d && a == WouldWrite(RelPath(e), |Get(e.content).s|))
      && (!dryRun ==>
            && a == Wrote(RelPath(e))
            && Destination(root, e) in d'.files
            && d'.files[Destination(root, e)] == Get(e.content).s
            && (forall p :: p != Destination(root, e) ==>
                  (p in d'.files <==> p in d.files) && (p in d.files ==> d'.files[p] == d.files[p]))
            && d.dirs <= d'.dirs && d'.dirs - d.dirs <= Ancestors(Destination(root, e)))
  {
  }

  lemma StepPreservesTree(d: Disk, root: Path, e: Entry, dryRun: bool, force: bool)
    requires IsTree(d)
    requires Step(d, root, e, dryRun, force).Success?
    ensures IsTree(Step(d, root, e, dryRun, force).value.0)
  {
    if !dryRun {
      var out := Destination(root, e);
      var d' := Step(d, root, e, dryRun, force).value.0;
      assert d'.files == d.files[out := Get(e.content).s];
      assert d'.dirs == d.dirs + Ancestors(out);
      forall p, k | p in d'.dirs && 0 <= k < |p| ensures p[..k] in d'.dirs {
        if p !in d.dirs {
          var j :| 0 <= j < |out| && p == out[..j];
          assert p[..k] == out[..k];
        }
      }
      forall p, k | p in d'.files && 0 <= k < |p| ensures p[..k] in d'.dirs {
        if p == out {
          assert out[..k] in Ancestors(out);
        }
      }
      forall p | p in d'.files ensures p !in d'.dirs {
        if p == out {
          assert out !in d.dirs;
          assert forall j :: 0 <= j < |out| ==> |out[..j]| < |out|;
        } else {
          if p in Ancestors(out) {
            assert false;
          }
        }
      }
    }
  }

  // ---------------------------------------------------------------------
  // Any loop of this shape

  /**
   * Running a batch is running a prefix and then the rest from where it
   * left off; if the prefix already failed, the rest is never looked at.
   */
  lemma {:induction false} BatchSplit(step: StepFn, d: Disk, entries: seq<Entry>, i: nat)
    requires i <= |entries|
    ensures var p := Batch(step, d, entries[..i]);
      && (p.failure.None? ==> Batch(step, d, entries) == After(p.log, i, Batch(step, p.disk, entries[i..])))
      && (p.failure.Some? ==> Batch(step, d, entries) == p)
    decreases i
  {
    if i == 0 {
      assert entries[i..] == entries;
      assert [] + Batch(step, d, entries).log == Batch(step, d, entries).log;
    } else {
      assert entries[..i][0] == entries[0];
      assert entries[..i][1..] == entries[1..][..i - 1];
      assert entries[1..][i - 1..] == entries[i..];
      var r := step(d, entries[0]);
      if r.Success? {
        var d1, a := r.value.0, r.value.1;
        BatchSplit(step, d1, entries[1..], i - 1);
        var q := Batch(step, d1, entries[1..][..i - 1]);
        if q.failure.None? {
          var rest := Batch(step, q.disk, entries[i..]);
          assert [a] + (q.log + rest.log) == ([a] + q.log) + rest.log;
        }
      }
    }
  }

  /**
   * When the batch stops at entry i: the entries before it all succeeded,
   * what they did persists, and entry i raised on the disk they left.
   */
  lemma {:induction false} BatchFailure(step: StepFn, d: Disk, entries: seq<Entry>)
    requires Batch(step, d, entries).failure.Some?
    ensures var o := Batch(step, d, entries);
      var i := o.failure.value.index;
      && i < |entries|
      && Batch(step, d, entries[..i]) == Outcome(o.disk, o.log, None)
      && step(o.disk, entries[i]) == Failure(o.failure.value.error)
    decreases |entries|
  {
    var o := Batch(step, d, entries);
    var r := step(d, entries[0]);
    if r.Failure? {
      assert entries[..0] == [];
    } else {
      var d1, a := r.value.0, r.value.1;
      BatchFailure(step, d1, entries[1..]);
      var i := o.failure.value.index;
      assert entries[..i][0] == entries[0];
      assert entries[..i][1..] == entries[1..][..i - 1];
      assert entries[1..][i - 1] == entries[i];
    }
  }

  /** A property of the disk that every accepted step keeps holds after the batch. */
  lemma {:induction false} BatchInvariant(step: StepFn, d: Disk, entries: seq<Entry>, inv: Disk -> bool)
    requires inv(d)
    requires forall x, e :: inv(x) && step(x, e).Success? ==> inv(step(x, e).value.0)
    ensures inv(Batch(step, d, entries).disk)
    decreases |entries|
  {
    if entries != [] && step(d, entries[0]).Success? {
      BatchInvariant(step, step(d, entries[0]).value.0, entries[1..], inv);
    }
  }

  /**
   * The report holds one line per entry before the failing one (or per
   * entry), in order, each related to its entry as every step relates them.
   */
  lemma {:induction false} BatchLog(step: StepFn, d: Disk, entries: seq<Entry>, rel: (Entry, Action) -> bool)
    requires forall x, e :: step(x, e).Success? ==> rel(e, step(x, e).value.1)
    ensures var o := Batch(step, d, entries);
      && |o.log| == (if o.failure.Some? then o.failure.value.index else |entries|)
      && |o.log| <= |entries|
      && forall k :: 0 <= k < |o.log| ==> rel(entries[k], o.log[k])
    decreases |entries|
  {
    if entries != [] && step(d, entries[0]).Success? {
      var o := Batch(step, d, entries);
      var d1 := step(d, entries[0]).value.0;
      BatchLog(step, d1, entries[1..], rel);
      forall k | 0 <= k < |o.log| ensures rel(entries[k], o.log[k]) {
        if k > 0 {
          assert entries[k] == entries[1..][k - 1];
        }
      }
    }
  }

  // ---------------------------------------------------------------------
  // The batch of _safe_write_files

  /** The batch preserves the tree shape of the file system. */
  lemma RunPreservesTree(d: Disk, root: Path, entries: seq<Entry>, dryRun: bool, force: bool)
    requires IsTree(d)
    ensures IsTree(Run(d, root, entries, dryRun, force).disk)
  {
    var step: StepFn := (x, e) => Step(x, root, e, dryRun, force);
    forall x, e | IsTree(x) && step(x, e).Success? ensures IsTree(step(x, e).value.0) {
      StepPreservesTree(x, root, e, dryRun, force);
    }
    BatchInvariant(step, d, entries, IsTree);
  }

  /** A dry run leaves the file system exactly as it was, whatever the entries. */
  lemma DryRunChangesNothing(d: Disk, root: Path, entries: seq<Entry>, force: bool)
    ensures Run(d, root, entries, true, force).disk == d
  {
    var step: StepFn := (x, e) => Step(x, root, e, true, force);
    forall x, e | x == d && step(x, e).Success? ensures step(x, e).value.0 == d {
      StepAccepted(x, root, e, true, force);
    }
    BatchInvariant(step, d, entries, x => x == d);
  }

  /** `d'` agrees with `d` on every file outside `root`. */
  ghost predicate SameOutside(root: Path, d: Disk, d': Disk)
  {
    forall p :: !Within(root, p) ==>
      (p in d'.files <==> p in d.files) && (p in d.files ==> d'.files[p] == d.files[p])
  }

  /** No file outside the repository root is created, changed or removed. */
  lemma RunStaysWithinRoot(d: Disk, root: Path, entries: seq<Entry>, dryRun: bool, force: bool)
    ensures SameOutside(root, d, Run(d, root, entries, dryRun, force).disk)
  {
    var step: StepFn := (x, e) => Step(x, root, e, dryRun, force);
    forall x, e | SameOutside(root, d, x) && step(x, e).Success?
      ensures SameOutside(root, d, step(x, e).value.0)
    {
      StepAccepted(x, root, e, dryRun, force);
    }
    BatchInvariant(step, d, entries, x => SameOutside(root, d, x));
  }

  /** The report line an accepted entry produces. */
  predicate Reports(e: Entry, a: Action, dryRun: bool)
  {
    HasValidPath(e) && a.rel == RelPath(e) && (if dryRun then a.WouldWrite? else a.Wrote?)
  }

  /**
   * One report line per accepted entry, in order, naming its path: "would
   * write" lines in a dry run, "write" lines otherwise.
   */
  lemma RunLog(d: Disk, root: Path, entries: seq<Entry>, dryRun: bool, force: bool)
    ensures var o := Run(d, root, entries, dryRun, force);
      && |o.log| == (if o.failure.Some? then o.failure.value.index else |entries|)
      && |o.log| <= |entries|
      && forall k :: 0 <= k < |o.log| ==> Reports(entries[k], o.log[k], dryRun)
  {
    var step: StepFn := (x, e) => Step(x, root, e, dryRun, force);
    forall x, e | step(x, e).Success? ensures Reports(e, step(x, e).value.1, dryRun) {
      StepAccepted(x, root, e, dryRun, force);
    }
    BatchLog(step, d, entries, (e, a) => Reports(e, a, dryRun));
  }

  /**
   * When the batch stops at entry i, the entries before it all succeeded and
   * what they wrote persists; entry i raised and changed nothing.
   */
  lemma RunFailureKeepsEarlierWrites(d: Disk, root: Path, entries: seq<Entry>, dryRun: bool, force: bool)
    requires Run(d, root, entries, dryRun, force).failure.Some?
    ensures var o := Run(d, root, entries, dryRun, force);
      var i := o.failure.value.index;
      && i < |entries|
      && Run(d, root, entries[..i], dryRun, force) == Outcome(o.disk, o.log, None)
      && Step(o.disk, root, entries[i], dryRun, force) == Failure(o.failure.value.error)
  {
    BatchFailure((x, e) => Step(x, root, e, dryRun, force), d, entries);
  }

  /**
   * Wherever it stands in the list, an entry whose destination exists when
   * it is reached stops the batch there without force, and the disk is what
   * the entries before it left.
   */
  lemma ExistingDestinationStops(d: Disk, root: Path, entries: seq<Entry>, i: nat, dryRun: bool)
    requires i < |entries|
    requires Run(d, root, entries[..i], dryRun, false).failure.None?
    requires HasValidPath(entries[i]) && Get(entries[i].content).Str?
    requires Within(root, Destination(root, entries[i]))
    requires Exists(Run(d, root, entries[..i], dryRun, false).disk, Destination(root, entries[i]))
    ensures Run(d, root, entries, dryRun, false).failure == Some(Rejection(i, AlreadyExists(RelPath(entries[i]))))
    ensures Run(d, root, entries, dryRun, false).disk == Run(d, root, entries[..i], dryRun, false).disk
  {
    var step: StepFn := (x, e) => Step(x, root, e, dryRun, false);
    BatchSplit(step, d, entries, i);
    var p := Run(d, root, entries[..i], dryRun, false);
    assert entries[i..][0] == entries[i];
    StepRejects(p.disk, root, entries[i], dryRun, false);
  }

  lemma SplitParentPrefix(rest: string)
    ensures Split("../" + rest) == [".."] + Split(rest)
  {
    var s := "../" + rest;
    assert s[2] == '/' && '/' !in s[..2];
    assert FirstIndex(s, '/') == 2;
    assert s[..2] == ".." && s[3..] == rest;
  }

  lemma SplitTwoSegments(a: string, b: string)
    requires '/' !in a && '/' !in b
    ensures Split(a + "/" + b) == [a, b]
  {
    var s := a + "/" + b;
    assert s[|a|] == '/' && s[..|a|] == a && s[|a| + 1..] == b;
    assert FirstIndex(s, '/') == |a|;
  }

  lemma SplitTraversal(c: string, p: string)
    requires '/' !in c && '/' !in p
    ensures Split("../" + ("../" + (c + "/" + p))) == ["..", "..", c, p]
  {
    SplitTwoSegments(c, p);
    SplitParentPrefix(c + "/" + p);
    SplitParentPrefix("../" + (c + "/" + p));
  }

  lemma NormaliseTraversal(a: string, b: string, c: string, p: string)
    requires IsPlainSegment(c) && IsPlainSegment(p)
    ensures Normalise([a, b], ["..", "..", c, p]) == [c, p]
  {
    var segs := ["..", "..", c, p];
    assert segs[1..] == ["..", c, p] && segs[1..][1..] == [c, p];
    assert [c, p][1..] == [p] && [p][1..] == [];
    assert Apply([c], p) == [c, p];
    assert Normalise([c], [p]) == [c, p];
    assert Apply([], c) == [c];
    assert Normalise([], [c, p]) == Normalise([c], [p]);
    assert Normalise([a], ["..", c, p]) == [c, p];
  }

  /** Against a root /a/b, the path ../../c/p resolves to /c/p. */
  lemma ResolveTraversal(a: string, b: string, c: string, p: string)
    requires IsPlainSegment(c) && IsPlainSegment(p)
    ensures Resolve([a, b], "../" + ("../" + (c + "/" + p))) == [c, p]
  {
    var rel := "../" + ("../" + (c + "/" + p));
    SplitTraversal(c, p);
    NormaliseTraversal(a, b, c, p);
    assert !StartsWith(rel, "/") by { assert rel[0] == '.'; }
  }

  /**
   * Path traversal: ../../c/p against the root /a/b lies outside the root
   * whenever c differs from a; the entry is refused and nothing is written (e.g.
   * ../../etc/passwd against /srv/repo).
   */
  lemma TraversalRejected(d: Disk, a: string, b: string, c: string, p: string, content: string, dryRun: bool, force: bool)
    requires IsPlainSegment(a) && IsPlainSegment(b) && IsPlainSegment(c) && IsPlainSegment(p)
    requires c != a
    ensures var rel := "../" + ("../" + (c + "/" + p));
      var e := Object(Some(Str(rel)), Some(Str(content)));
      Run(d, [a, b], [e], dryRun, force) == Outcome(d, [], Some(Rejection(0, OutsideRepo(rel))))
  {
    var rel := "../" + ("../" + (c + "/" + p));
    ResolveTraversal(a, b, c, p);
    assert !Within([a, b], [c, p]);
    var e := Object(Some(Str(rel)), Some(Str(content)));
    assert Validate([a, b], e) == Failure(OutsideRepo(rel));
    RunFirst(d, [a, b], [e], dryRun, force);
  }

  // ---------------------------------------------------------------------
  // The file system the loop works on

  class FileSystem {
    var files: map<Path, string>
    var dirs: set<Path>

    ghost predicate Valid()
      reads this
    {
      IsTree(Disk(files, dirs))
    }

    function State(): Disk
      reads this
    {
      Disk(files, dirs)
    }

    constructor (files0: map<Path, string>, dirs0: set<Path>)
      requires IsTree(Disk(files0, dirs0))
      ensures Valid() && State() == Disk(files0, dirs0)
    {
      files, dirs := files0, dirs0;
    }

    /** The body of the loop in _safe_write_files, for one entry. */
    method WriteEntry(root: Path, e: Entry, dryRun: bool, force: bool) returns (r: Result<Action, WriteError>)
      requires Valid()
      modifies this
      ensures Valid()
      ensures Step(old(State()), root, e, dryRun, force).Failure? ==>
                r == Failure(Step(old(State()), root, e, dryRun, force).error) && State() == old(State())
      ensures Step(old(State()), root, e, dryRun, force).Success? ==>
                r == Success(Step(old(State()), root, e, dryRun, force).value.1)
                && State() == Step(old(State()), root, e, dryRun, force).value.0
    {
      if e.NotAnObject? {
        return Failure(NoFields);
      }
      var rel := Get(e.path);
      var content := Get(e.content);
      if !rel.Str? || rel.s == "" {
        return Failure(InvalidPath);
      }
      if !content.Str? {
        return Failure(InvalidContent(rel.s));
      }
      var out := Resolve(root, rel.s);
      if !Within(root, out) {
        return Failure(OutsideRepo(rel.s));
      }
      ghost var t := Target(rel.s, content.s, out);
      assert Validate(root, e) == Success(t);
      if (out in files || out in dirs) && !force {
        return Failure(AlreadyExists(rel.s));
      }
      if dryRun {
        return Success(WouldWrite(rel.s, |content.s|));
      }
      // out.parent.mkdir(parents=True, exist_ok=True)
      if exists k :: 0 <= k < |out| && out[..k] in files {
        return Failure(ParentIsFile(rel.s));
      }
      ghost var d := State();
      dirs := dirs + Ancestors(out);
      // out.write_text(content)
      if out in dirs {
        assert out in d.dirs;
        assert dirs == d.dirs by {
          forall p | p in Ancestors(out) ensures p in d.dirs {
            var k :| 0 <= k < |out| && p == out[..k];
          }
        }
        return Failure(IsDirectory(rel.s));
      }
      files := files[out := content.s];
      StepPreservesTree(d, root, e, dryRun, force);
      return Success(Wrote(rel.s));
    }

    /**
     * _safe_write_files: on return, the disk, the report lines and the
     * entry that raised (if any) are those of Run on the initial disk.
     */
    method SafeWriteFiles(root: Path, entries: seq<Entry>, dryRun: bool, force: bool)
      returns (log: seq<Action>, failure: Option<Rejection>)
      requires Valid()
      modifies this
      ensures Valid()
      ensures Run(old(State()), root, entries, dryRun, force) == Outcome(State(), log, failure)
    {
      log, failure := [], None;
      ghost var d0 := State();
      for i := 0 to |entries|
        invariant Valid()
        invariant Run(d0, root, entries, dryRun, force) == After(log, i, Run(State(), root, entries[i..], dryRun, force))
      {
        ghost var d := State();
        var r := WriteEntry(root, entries[i], dryRun, force);
        if r.Failure? {
          BatchStops((x, e) => Step(x, root, e, dryRun, force), d0, d, entries, i, log);
          return log, Some(Rejection(i, r.error));
        }
        BatchAdvance((x, e) => Step(x, root, e, dryRun, force), d0, d, entries, i, log);
        log := log + [r.value];
      }
      assert entries[|entries|..] == [];
      assert [] + log == log;
    }
  }
}
