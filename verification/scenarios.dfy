/**
 The header blocks the scenarios feed to the checkers, with the facts about
 them the checks depend on: which labels each holds and that none holds a
 dash.
 */
module SampleHeaders {
  import opened Strings

  /** The header `name`/`description` holds both labels and no dash. */
  lemma NameDescriptionHeader(header: string)
    requires header == "\n" + "name:" + " x\n" + "description:" + " y\n"
    ensures Contains(header, "name:") && Contains(header, "description:")
    ensures forall i :: 0 <= i < |header| ==> header[i] != '-'
  {
    assert forall i :: 0 <= i < |header| ==> header[i] != '-' by {}
    ContainsSpliced("\n", "name:", " x\n");
    ContainsExtended("\n" + "name:" + " x\n", "name:", "description:");
    ContainsExtended("\n" + "name:" + " x\n" + "description:", "name:", " y\n");
    ContainsSpliced("\n" + "name:" + " x\n", "description:", " y\n");
  }

  /** The header `name` holds that label, no `p` (so no `description:`) and no
      dash. */
  lemma NameOnlyHeader(header: string)
    requires header == "\n" + "name:" + " x\n"
    ensures Contains(header, "name:") && !Contains(header, "description:")
    ensures forall i :: 0 <= i < |header| ==> header[i] != '-'
  {
    ContainsSpliced("\n", "name:", " x\n");
    AbsentCharMeansAbsent(header, "description:", 6);
  }

  /** The header `filename`/`description` holds `name:` inside `filename:`,
      holds `description:`, and no dash. */
  lemma FilenameHeader(header: string)
    requires header == "\nfile" + "name:" + " a\n" + "description:" + " b\n"
    ensures Contains(header, "name:") && Contains(header, "description:")
    ensures forall i :: 0 <= i < |header| ==> header[i] != '-'
  {
    assert forall i :: 0 <= i < |header| ==> header[i] != '-' by {}
    ContainsSpliced("\nfile", "name:", " a\n");
    ContainsExtended("\nfile" + "name:" + " a\n", "name:", "description:");
    ContainsExtended("\nfile" + "name:" + " a\n" + "description:", "name:", " b\n");
    ContainsSpliced("\nfile" + "name:" + " a\n", "description:", " b\n");
  }

  /** The header `title`/`date`/`topic` holds those three labels and no
      dash. */
  lemma ThreeLabelHeader(header: string)
    requires header == "\n" + "title:" + " t\n" + "date:" + " d\n" + "topic:" + " x\n"
    ensures Contains(header, "title:") && Contains(header, "date:") && Contains(header, "topic:")
    ensures forall i :: 0 <= i < |header| ==> header[i] != '-'
  {
    assert forall i :: 0 <= i < |header| ==> header[i] != '-' by {}
    var p1 := "\n" + "title:" + " t\n";
    var p2 := p1 + "date:" + " d\n";
    ContainsSpliced("\n", "title:", " t\n");
    ContainsExtended(p1, "title:", "date:");
    ContainsExtended(p1 + "date:", "title:", " d\n");
    ContainsSpliced(p1, "date:", " d\n");
    ContainsExtended(p2, "title:", "topic:");
    ContainsExtended(p2, "date:", "topic:");
    ContainsExtended(p2 + "topic:", "title:", " x\n");
    ContainsExtended(p2 + "topic:", "date:", " x\n");
    ContainsSpliced(p2, "topic:", " x\n");
  }

  /** The header `title`/`date`/`topic` has no `g`, so no `tags:`. */
  lemma ThreeLabelHeaderLacksTags(header: string)
    requires header == "\n" + "title:" + " t\n" + "date:" + " d\n" + "topic:" + " x\n"
    ensures !Contains(header, "tags:")
  {
    AbsentCharMeansAbsent(header, "tags:", 2);
  }

  /** The header `title`/`date`/`topic` has no `u`, so no `status:`. */
  lemma ThreeLabelHeaderLacksStatus(header: string)
    requires header == "\n" + "title:" + " t\n" + "date:" + " d\n" + "topic:" + " x\n"
    ensures !Contains(header, "status:")
  {
    AbsentCharMeansAbsent(header, "status:", 4);
  }
}

/**
 Concrete cases proved about the checkers on small manifests and documents: the
 behaviours the validator is meant to show, including the weakness of
 matching field labels as plain substrings.
 */
module Scenarios {
  import opened Strings
  import opened SampleHeaders
  import opened Validate
  import opened Cli

  /** A header without any dash cannot hold the delimiter, so the delimiter
      that follows it is the first one. */
  lemma DashFreeHeader(header: string)
    requires forall i :: 0 <= i < |header| ==> header[i] != '-'
    ensures forall j :: 0 <= j < |header| ==> !OccursAt(header + Delimiter, Delimiter, j)
  {
    forall j | 0 <= j < |header| && OccursAt(header + Delimiter, Delimiter, j)
      ensures (header + Delimiter)[j] == '-'
    {
      assert (header + Delimiter)[j..j + |Delimiter|][0] == Delimiter[0];
    }
  }

  /** A manifest whose header holds no dash is judged on that header alone. */
  lemma SkillVerdict(header: string, body: string)
    requires forall i :: 0 <= i < |header| ==> header[i] != '-'
    ensures CheckSkill(true, Delimiter + header + Delimiter + body).issues
      == MissingFields(SkillLabels, header)
  {
    DashFreeHeader(header);
    HeaderStopsAtClosingDelimiter(header, body);
  }

  /** A manifest carrying both labels passes, whatever its body. */
  lemma CompleteManifestPasses(header: string, body: string)
    requires header == "\n" + "name:" + " x\n" + "description:" + " y\n"
    ensures CheckSkill(true, Delimiter + header + Delimiter + body) == Report(true, [])
  {
    NameDescriptionHeader(header);
    SkillVerdict(header, body);
    SkillChecklist(header);
  }

  /** A manifest without `description:` in its header block fails with exactly
      that one issue, whatever its body. */
  lemma ManifestWithoutDescription(header: string, body: string)
    requires header == "\n" + "name:" + " x\n"
    ensures CheckSkill(true, Delimiter + header + Delimiter + body)
      == Report(false, ["Missing field: description"])
  {
    NameOnlyHeader(header);
    SkillVerdict(header, body);
    SkillChecklist(header);
  }

  /** Labels are found as plain substrings: `filename:` satisfies the `name:`
      check although the header has no `name` key. */
  lemma SubstringSatisfiesLabel(header: string, body: string)
    requires header == "\nfile" + "name:" + " a\n" + "description:" + " b\n"
    ensures CheckSkill(true, Delimiter + header + Delimiter + body).valid
  {
    FilenameHeader(header);
    SkillVerdict(header, body);
    SkillChecklist(header);
  }

  /** A document without a header block reports only the missing front
      matter, however many labels it carries. */
  lemma DocumentWithoutHeader(content: string)
    requires content == "title: t\ndate: d\ntopic: x\ntags: a\nstatus: s\n"
    ensures CheckDoc(content) == Report(false, [MissingFrontmatter])
  {
    assert content[0] != Delimiter[0];
  }

  /** A document whose header holds no dash is judged on that header alone. */
  lemma DocVerdict(header: string, body: string)
    requires forall i :: 0 <= i < |header| ==> header[i] != '-'
    ensures CheckDoc(Delimiter + header + Delimiter + body).issues
      == MissingFields(DocLabels, header)
  {
    DashFreeHeader(header);
    HeaderStopsAtClosingDelimiter(header, body);
  }

  /** A header holding the first three document labels but neither `tags:`
      nor `status:` is reported for `tags` and `status`, in that order. */
  lemma TagsAndStatusReported(header: string)
    requires Contains(header, "title:") && Contains(header, "date:") && Contains(header, "topic:")
    requires !Contains(header, "tags:") && !Contains(header, "status:")
    ensures MissingFields(DocLabels, header)
      == [MissingFieldPrefix + "tags", MissingFieldPrefix + "status"]
  {
    PresentPrefixSkipped(DocLabels, header, 3);
    AllAbsentAllReported(DocLabels[3..], header);
    assert AllFieldIssues(DocLabels[3..]) == [FieldIssue("tags:"), FieldIssue("status:")];
    assert RStrip("tags:", ':') == "tags";
    assert RStrip("status:", ':') == "status";
  }

  /** A document lacking `tags:` and `status:` fails with those two issues, in
      that order, whatever its body. */
  lemma DocumentWithoutTagsAndStatus(header: string, body: string)
    requires header == "\n" + "title:" + " t\n" + "date:" + " d\n" + "topic:" + " x\n"
    ensures CheckDoc(Delimiter + header + Delimiter + body)
      == Report(false, [MissingFieldPrefix + "tags", MissingFieldPrefix + "status"])
  {
    ThreeLabelHeader(header);
    ThreeLabelHeaderLacksTags(header);
    ThreeLabelHeaderLacksStatus(header);
    DocVerdict(header, body);
    TagsAndStatusReported(header);
  }

  /** Naming a `SKILL.md` that does not exist fails with the missing-manifest
      issue and exit status 1. */
  lemma AbsentManifestRun()
    ensures var o := Run([Path(["notes", "SKILL.md"])], Probe(false, false, ""));
      o == Checked("Skill", Path(["notes", "SKILL.md"]), Report(false, ["Missing SKILL.md"]))
      && ExitStatus(o) == 1
  {
    AbsentManifestFails(Path(["notes", "SKILL.md"]), "");
  }

  /** Without an argument the program prints its usage and exits with 1. */
  lemma NoArgumentRun(probe: Probe)
    ensures Run([], probe) == Usage && ExitStatus(Run([], probe)) == 1
  {
  }
}
