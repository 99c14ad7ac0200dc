# Header validator of the technical-research skill, in Dafny

`skills/technical-research/validate.py` checks that a skill manifest
(`SKILL.md`) or a research document opens with a `---`-delimited header
block, and that fixed field labels occur in that block. It does not parse the
block as YAML. A label counts as present when its text occurs anywhere in the
block as a plain substring. The block is `parts[1]` of
`content.split('---', 2)`.

The model has five modules:

- `Strings` (`strings.dfy`) models the four string operations the script
  calls:
  - `startswith`;
  - the `in` operator, as `Contains`;
  - `split(sep, maxsplit)`, as a left-to-right, non-overlapping cut into at
    most `maxsplit + 1` parts;
  - `rstrip` of a single character.

  It also models `find` and `sep.join`. The script calls neither: they define
  `split` and state its round trip.
- `Validate` (`validate.dfy`) models:
  - `validate_skill` as `CheckSkill`, with the existence of `SKILL.md` and the
    manifest's text given as inputs;
  - `validate_doc` as `CheckDoc`, with the document's text given as input;
  - the shared field check as `MissingFields`.
- `Cli` (`cli.dfy`) models the `__main__` block:
  - the choice between skill and document, made from the argument's shape and
    the `is_dir()` answer;
  - the directory the skill check is given;
  - the exit status.

  Paths are sequences of components, with pathlib's `name` and `parent`. A
  `Probe` value carries the answers the file system would give: `is_dir()`,
  the existence of the manifest, and the text read.
- `SampleHeaders` and `Scenarios` (`scenarios.dfy`) hold concrete cases
  proved about the checkers on small manifests and documents. They include
  the known weakness of substring matching: the label `filename:` satisfies
  the `name:` check.

## Model

| member | source | states |
|---|---|---|
| Strings.StartsWithByChars | skills/technical-research/validate.py:18 | `startswith('---')` holds exactly when the text is at least as long as the prefix and agrees with it character by character |
| Strings.Contains | skills/technical-research/validate.py:43 | `sub in s` holds exactly when `sub` occurs in `s` at some index |
| Strings.FindIsLeftmost | skills/technical-research/validate.py:21 | the search behind `split` returns the leftmost occurrence at or after `start`, and finds none only when no occurrence exists from `start` on |
| Strings.Split | skills/technical-research/validate.py:21 | `split(sep, maxsplit)` yields at least one and at most `maxsplit + 1` parts |
| Strings.SplitJoin | skills/technical-research/validate.py:21 | joining the parts of a split with the separator gives back the original text, so the split loses and invents nothing |
| Strings.SplitCutsAtLeftmostSeparators | skills/technical-research/validate.py:21 | the cuts are at separators met from the left: no occurrence of the separator starts inside a part but the last, not even one running on into the cut after it, and the last part holds none when fewer than `maxsplit` cuts were made |
| Strings.LeftmostCutsDetermineSplit | skills/technical-research/validate.py:21 | any parts that join back to the text, number at most `maxsplit + 1` and cut at the leftmost separators are exactly the parts `split` returns |
| Strings.RStrip | skills/technical-research/validate.py:44 | `rstrip(':')` keeps a prefix of the label that does not end in a colon, and everything it removed was colons |
| Validate.HeaderSegment | skills/technical-research/validate.py:21-23 | the header block is a prefix of the text after the opening `---`, holds no `---`, and ends at the next `---` or at the end of the text |
| Validate.SplitYieldsHeader | skills/technical-research/validate.py:21-23 | for a text opening with `---`, the split has at least two parts, the first empty and the second the header block, so the `len(parts) >= 2` guard never fails |
| Validate.HeaderStopsAtClosingDelimiter | skills/technical-research/validate.py:21-23 | for `---` + header + `---` + body, where the closing `---` is the first one after the opening, the header block is exactly that header |
| Validate.BodyIsIgnored | skills/technical-research/validate.py:39-41 | both checkers give the same report whatever follows the closing delimiter, so labels that appear only in the body do not count |
| Validate.FieldIssue | skills/technical-research/validate.py:44 | each issue text is `Missing field: ` followed by the label with its trailing colons stripped: a prefix of the label that does not end in a colon, after which the label holds only colons |
| Validate.MissingFields | skills/technical-research/validate.py:42-44 | the field check reports no more issues than labels, and each issue belongs to a label absent from the header |
| Validate.MissingLabelReported | skills/technical-research/validate.py:42-44 | every label absent from the header is reported |
| Validate.MissingFieldsExact | skills/technical-research/validate.py:42-44 | when issue texts are distinct, a label's issue is reported if and only if the label is absent |
| Validate.NoMissingFieldsIffAllPresent | skills/technical-research/validate.py:42-46 | the field check reports nothing if and only if every label occurs in the header |
| Validate.MissingFieldsInOrder | skills/technical-research/validate.py:42-44 | the reported issues are a subsequence of the issue texts of all labels, so list order is kept |
| Validate.PresentPrefixSkipped | skills/technical-research/validate.py:42-44 | leading labels that all occur contribute no issue |
| Validate.AllAbsentAllReported | skills/technical-research/validate.py:42-44 | when no label occurs, every label is reported, in order |
| Validate.CheckSkill | skills/technical-research/validate.py:8-29 | the manifest passes exactly when it has no issue; a missing manifest gives exactly `(False, ["Missing SKILL.md"])`; a text not opening with `---` gives exactly the frontmatter issue; otherwise the issues are those of the generic field check over `name:`, `description:` on the header block |
| Validate.SkillChecklist | skills/technical-research/validate.py:24-27 | the two hand-written skill checks agree with the generic field check over the labels `name:`, `description:` |
| Validate.CheckDoc | skills/technical-research/validate.py:32-46 | the document passes exactly when it has no issue; a text not opening with `---` gives exactly the frontmatter issue; otherwise the issues are those of the field check over the five labels on the header block |
| Validate.DocIssueTexts | skills/technical-research/validate.py:42-44 | the five labels are reported as `Missing field: title`, `date`, `topic`, `tags` and `status` |
| Validate.DocIssuesDistinct | skills/technical-research/validate.py:42-44 | no two document labels produce the same issue text |
| Validate.SkillIssueTexts | skills/technical-research/validate.py:24-27 | the skill labels are reported as `Missing field: name` and `description`, and the two texts differ |
| Validate.DocFieldIssues | skills/technical-research/validate.py:39-44 | for a document with a header block, each of the five issues is reported if and only if its label is absent from the block; the issues follow the order title, date, topic, tags, status; there are at most five |
| Validate.SkillFieldIssues | skills/technical-research/validate.py:21-27 | for a manifest with a header block, each of the two issues is reported if and only if its label is absent from the block; `name` comes before `description`; there are at most two |
| Validate.DocValidIff | skills/technical-research/validate.py:36-46 | a document passes if and only if it opens with `---` and all five labels occur in its header block |
| Validate.SkillValidIff | skills/technical-research/validate.py:12-29 | a skill passes if and only if its manifest exists, opens with `---`, and holds both `name:` and `description:` in its header block |
| Cli.ChildParentName | skills/technical-research/validate.py:56 | for pathlib paths, the `parent` of `dir / name` is `dir` and its `name` is `name` |
| Cli.ParentChildName | skills/technical-research/validate.py:56 | a path with a non-empty `name` is its `parent` joined with that `name`, so `path.parent / "SKILL.md"` is the path itself when it is named `SKILL.md` |
| Cli.Classify | skills/technical-research/validate.py:55-60 | the argument is a skill if and only if it is a directory or is named `SKILL.md`; the manifest checked is `SKILL.md` inside the directory, or the named manifest itself; anything else is a document checked in place; `CheckedFile` gives that file, `skill_path / "SKILL.md"` (line 10) or the document itself (line 34) |
| Cli.SkillByDirOrManifest | skills/technical-research/validate.py:55-56 | naming a skill by its directory or by its `SKILL.md` selects the same skill directory |
| Cli.Run | skills/technical-research/validate.py:49-60 | no argument gives the usage outcome, and only then; otherwise the title is `Skill` for a skill target and `Document` for any other, the file is the one the target's check reads, and the report is that of the matching checker |
| Cli.ExitStatus | skills/technical-research/validate.py:50-65 | the exit status is 0 or 1, and it is 0 exactly when a target was checked and found valid |
| Cli.ExitZeroIffPass | skills/technical-research/validate.py:50-65 | the program exits with 0 if and only if it got an argument and the chosen check reported no issue |
| Cli.AbsentManifestFails | skills/technical-research/validate.py:54-56 | a `SKILL.md` argument whose manifest is missing is still classified as a skill, and fails with the single missing-manifest issue and status 1 |
| Scenarios.SkillVerdict | skills/technical-research/validate.py:21-27 | a manifest whose header holds no dash is judged on that header alone, whatever its body |
| Scenarios.DocVerdict | skills/technical-research/validate.py:39-44 | a document whose header holds no dash is judged on that header alone, whatever its body |
| Scenarios.CompleteManifestPasses | skills/technical-research/validate.py:8-29 | `---` `name: x`, `description: y` `---` passes with no issue, for any body |
| Scenarios.ManifestWithoutDescription | skills/technical-research/validate.py:24-27 | `---` `name: x` `---` fails with exactly `Missing field: description` |
| Scenarios.SubstringSatisfiesLabel | skills/technical-research/validate.py:24 | a header with `filename:` and no `name` key still passes the `name:` check |
| Scenarios.DocumentWithoutHeader | skills/technical-research/validate.py:36-37 | a document carrying all five labels but no opening `---` fails with only the frontmatter issue |
| Scenarios.TagsAndStatusReported | skills/technical-research/validate.py:42-44 | a header with title, date and topic but without tags and status is reported for `tags` and then `status` |
| Scenarios.DocumentWithoutTagsAndStatus | skills/technical-research/validate.py:32-46 | a document whose header lacks `tags:` and `status:` fails with exactly those two issues, in that order |
| Scenarios.AbsentManifestRun | skills/technical-research/validate.py:54-56 | naming `notes/SKILL.md` when it does not exist reports a skill with the missing-manifest issue and exit status 1 |
| Scenarios.NoArgumentRun | skills/technical-research/validate.py:50-52 | with no argument the run stops at the usage message with exit status 1 |

## Left out

- File access is not modelled: `exists()`, `is_dir()` and `read_text(encoding='utf-8')` become inputs, namely the `manifestExists` flag, the `Probe` and the content string.
  - A decoding failure is not modelled.
  - Reading a document path that does not exist raises an uncaught error. The model has no outcome for this; `CheckDoc` always receives a text.
- Other read failures are not modelled either: a `SKILL.md` that exists but is a directory, or a file whose permissions forbid reading, makes `read_text` raise and aborts the process instead of giving a report. The two `is_dir()` calls on lines 55-56 are taken as one answer, `Probe.isDir`, so a path that changes between them is not modelled.
- Printed output is not modelled: the usage line, the `PASS`/`FAIL` line and the indented issue lines. `Run` keeps what they are computed from: the title, the checked file and the report.
- Command-line parsing is not modelled: turning `sys.argv[1]` into a `Path` is left out, and the argument arrives already as path components. pathlib's normalisation (`.`, `..`, trailing separators) is not modelled. Arguments after the first are ignored, as in the script.
- The unused `import re` on line 4 has no counterpart.
- Line 65 ends in a stray `s` after `sys.exit(0 if valid else 1)`, so the script as written does not parse. `ExitStatus` models the evident intent, `sys.exit(0 if valid else 1)`.
- Strings.Split: covers only a non-empty separator and a non-negative `maxsplit`. The script only calls `split('---', 2)`. Python raises `ValueError` on an empty separator and does not limit the splits for `maxsplit=-1`.
- Strings.RStrip: strips a single character, not an arbitrary character set. The script only strips `':'`.
- Strings.FindIsLeftmost: `find` answers `None` where Python answers `-1`.
- `if len(parts) >= 2` on lines 22 and 40 has no `else`: when it fails, the script falls through without adding an issue. `CheckSkill` and `CheckDoc` write that case as `else []`. `SplitYieldsHeader` proves it unreachable.
