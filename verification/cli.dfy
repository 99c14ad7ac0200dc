/**
 The command-line entry point of the validator: it classifies its one
 argument as a skill or a document, runs the matching check and turns the
 verdict into an exit status. The file system is replaced by a `Probe`, the
 answers the program would get from it for that argument.
 */
module Cli {
  import opened Validate

  /** The file name that marks a skill manifest. */
  const ManifestName: string := "SKILL.md"

  /** A path as its sequence of components; the empty sequence is the path
      `.` (or the root), whose name is empty and whose parent is itself. */
  datatype Path = Path(components: seq<string>)

  /** The final component of a path, as pathlib's `name`. */
  function Name(p: Path): string
  {
    if |p.components| == 0 then [] else p.components[|p.components| - 1]
  }

  /** The path without its final component, as pathlib's `parent`. */
  function Parent(p: Path): Path
  {
    if |p.components| == 0 then p else Path(p.components[..|p.components| - 1])
  }

  /** `dir / name` for a single component `name`. */
  function Child(dir: Path, name: string): Path
  {
    Path(dir.components + [name])
  }

  /** Naming a file and then taking its parent gives back the directory. */
  lemma ChildParentName(dir: Path, name: string)
    ensures Parent(Child(dir, name)) == dir
    ensures Name(Child(dir, name)) == name
  {
    assert (dir.components + [name])[..|dir.components|] == dir.components;
  }

  /** A path with a non-empty name is its parent joined with that name. */
  lemma ParentChildName(p: Path)
    ensures Name(p) != [] ==> Child(Parent(p), Name(p)) == p
  {
    if |p.components| > 0 {
      assert p.components[..|p.components| - 1] + [Name(p)] == p.components;
    }
  }

  /** What the program validates: a skill directory, or a document file. */
  datatype Target = SkillTarget(dir: Path) | DocumentTarget(file: Path)

  /** The file a target's check reads: the skill directory's manifest, or the
      document itself. */
  function CheckedFile(t: Target): Path
  {
    match t
    case SkillTarget(dir) => Child(dir, ManifestName)
    case DocumentTarget(file) => file
  }

  /** The classification of the argument, from its shape and the one
      `is_dir()` answer: a directory or a file named `SKILL.md` is a skill;
      anything else is a document. The skill check reads the manifest the
      argument names, or the one inside the directory it names. */
  function Classify(path: Path, isDir: bool): (t: Target)
    ensures t.SkillTarget? <==> isDir || Name(path) == ManifestName
    ensures t.SkillTarget? && isDir ==> Parent(CheckedFile(t)) == path
    ensures t.SkillTarget? && !isDir ==> CheckedFile(t) == path
    ensures t.SkillTarget? ==> Name(CheckedFile(t)) == ManifestName
    ensures t.DocumentTarget? ==> CheckedFile(t) == path && Name(path) != ManifestName
  {
    if isDir || Name(path) == ManifestName then
      var dir := if isDir then path else Parent(path);
      ChildParentName(dir, ManifestName);
      ParentChildName(path);
      SkillTarget(dir)
    else DocumentTarget(path)
  }

  /** Naming a skill by its directory or by its manifest selects the same
      skill. */
  lemma SkillByDirOrManifest(dir: Path)
    ensures Classify(Child(dir, ManifestName), false) == Classify(dir, true) == SkillTarget(dir)
  {
    ChildParentName(dir, ManifestName);
  }

  /** The file-system answers for the argument: whether it is a directory,
      whether the skill manifest exists, and the text of the file the chosen
      check reads. */
  datatype Probe = Probe(isDir: bool, manifestExists: bool, content: string)

  /** A run either stops at the usage message or checks a target. */
  datatype Outcome = Usage | Checked(title: string, file: Path, report: Report)

  /** The script's main block; `args` are the command-line arguments after
      the program name. Only the first one is used. */
  function Run(args: seq<Path>, probe: Probe): (o: Outcome)
    ensures |args| == 0 <==> o.Usage?
    ensures o.Checked? ==> o.file == CheckedFile(Classify(args[0], probe.isDir))
    ensures o.Checked? && o.title == "Skill" ==>
      o.report == CheckSkill(probe.manifestExists, probe.content)
    ensures o.Checked? && o.title == "Document" ==> o.report == CheckDoc(probe.content)
    ensures o.Checked? ==>
      o.title == (if probe.isDir || Name(args[0]) == ManifestName then "Skill" else "Document")
  {
    if |args| < 1 then Usage
    else
      var t := Classify(args[0], probe.isDir);
      match t
      case SkillTarget(_) => Checked("Skill", CheckedFile(t), CheckSkill(probe.manifestExists, probe.content))
      case DocumentTarget(_) => Checked("Document", CheckedFile(t), CheckDoc(probe.content))
  }

  /** The process exit status of a run. */
  function ExitStatus(o: Outcome): (code: int)
    ensures code == 0 || code == 1
    ensures code == 0 <==> o.Checked? && o.report.valid
  {
    match o
    case Usage => 1
    case Checked(_, _, report) => if report.valid then 0 else 1
  }

  /** The program exits with 0 exactly when it was given an argument and the
      check of that argument found no issue. */
  lemma ExitZeroIffPass(args: seq<Path>, probe: Probe)
    ensures ExitStatus(Run(args, probe)) == 0 <==>
      && |args| >= 1
      && (if probe.isDir || Name(args[0]) == ManifestName
          then CheckSkill(probe.manifestExists, probe.content).issues == []
          else CheckDoc(probe.content).issues == [])
  {
  }

  /** A `SKILL.md` argument whose manifest is absent is reported as a skill
      with the single missing-manifest issue, and the run fails; the file's
      absence does not change its classification. */
  lemma AbsentManifestFails(p: Path, content: string)
    requires Name(p) == ManifestName
    ensures Run([p], Probe(false, false, content)) == Checked("Skill", p, Report(false, [MissingManifest]))
    ensures ExitStatus(Run([p], Probe(false, false, content))) == 1
  {
  }
}
