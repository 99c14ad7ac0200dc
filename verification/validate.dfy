/**
 The two header checkers of the technical-research skill: one for a skill's
 `SKILL.md` manifest and one for a research document. Both look for a header
 block opened by `---` at the very start of the text and then test, by plain
 substring containment (no key/value parsing), whether fixed field labels
 occur in the text between the opening `---` and the next one.
 */
module Validate {
  import opened Strings

  const Delimiter: string := "---"
  const MissingManifest: string := "Missing SKILL.md"
  const MissingFrontmatter: string := "Missing YAML frontmatter"
  const MissingFieldPrefix: string := "Missing field: "

  /** The labels a skill manifest must carry, in the order they are checked. */
  const SkillLabels: seq<string> := ["name:", "description:"]
  /** The labels a research document must carry, in the order they are checked. */
  const DocLabels: seq<string> := ["title:", "date:", "topic:", "tags:", "status:"]

  /** The pair the checkers return: the pass flag and the issues in the order
      they were found. */
  datatype Report = Report(valid: bool, issues: seq<string>)

  /** The header block of a text that opens with the delimiter: what follows
      the opening `---`, up to the leftmost later `---`, or to the end of the
      text when there is none. */
  function HeaderSegment(content: string): (h: string)
    requires StartsWith(content, Delimiter)
    ensures StartsWith(content[|Delimiter|..], h)
    ensures forall j :: 0 <= j < |h| ==> !OccursAt(content[|Delimiter|..], Delimiter, j)
    ensures h == content[|Delimiter|..] || OccursAt(content[|Delimiter|..], Delimiter, |h|)
  {
    var rest := content[|Delimiter|..];
    FindIsLeftmost(rest, Delimiter, 0);
    match Find(rest, Delimiter, 0)
    case None => rest
    case Some(k) => rest[..k]
  }

  /** `content.split('---', 2)` on a text that opens with the delimiter has at
      least two parts, the first one empty, and its second part is exactly the
      header block; so the `len(parts) >= 2` guard always passes. */
  lemma SplitYieldsHeader(content: string)
    requires StartsWith(content, Delimiter)
    ensures var parts := Split(content, Delimiter, 2);
      |parts| >= 2 && parts[0] == [] && parts[1] == HeaderSegment(content)
  {
    assert OccursAt(content, Delimiter, 0);
    FindIsLeftmost(content, Delimiter, 0);
    assert Find(content, Delimiter, 0) == Some(0);
    var rest := content[|Delimiter|..];
    assert Split(content, Delimiter, 2) == [content[..0]] + Split(rest, Delimiter, 1);
    match Find(rest, Delimiter, 0)
    case None =>
      assert Split(rest, Delimiter, 1) == [rest];
    case Some(k) =>
      assert Split(rest, Delimiter, 1) == [rest[..k]] + Split(rest[k + |Delimiter|..], Delimiter, 0);
  }

  /** The issue reported for an absent label: the fixed prefix followed by
      the label with all its trailing colons stripped, that is, the longest
      prefix of the label that does not end in a colon. */
  function FieldIssue(field: string): (m: string)
    ensures StartsWith(m, MissingFieldPrefix)
    ensures StartsWith(field, m[|MissingFieldPrefix|..])
    ensures |m| == |MissingFieldPrefix| || m[|m| - 1] != ':'
    ensures forall i :: |m| - |MissingFieldPrefix| <= i < |field| ==> field[i] == ':'
  {
    MissingFieldPrefix + RStrip(field, ':')
  }

  /** The field check over a list of labels: one issue per label that does not
      occur in the header text, in the order of the list. */
  function MissingFields(labels: seq<string>, header: string): (issues: seq<string>)
    ensures |issues| <= |labels|
    ensures forall m :: m in issues ==>
      exists i :: 0 <= i < |labels| && !Contains(header, labels[i]) && m == FieldIssue(labels[i])
  {
    if |labels| == 0 then []
    else
      var rest := MissingFields(labels[1..], header);
      assert forall i :: 1 <= i < |labels| ==> labels[1..][i - 1] == labels[i];
      if Contains(header, labels[0]) then rest else [FieldIssue(labels[0])] + rest
  }

  /** `validate_skill`, with the existence of `SKILL.md` and its text given
      as inputs. */
  function CheckSkill(manifestExists: bool, content: string): (r: Report)
    ensures r.valid <==> r.issues == []
    ensures !manifestExists ==> r == Report(false, [MissingManifest])
    ensures manifestExists && !StartsWith(content, Delimiter) ==> r.issues == [MissingFrontmatter]
    ensures manifestExists && StartsWith(content, Delimiter) ==>
      r.issues == MissingFields(SkillLabels, HeaderSegment(content))
  {
    if !manifestExists then Report(false, [MissingManifest])
    else
      var issues :=
        if !StartsWith(content, Delimiter) then [MissingFrontmatter]
        else (
          var parts := Split(content, Delimiter, 2);
          SplitYieldsHeader(content);
          if |parts| >= 2 then
            var header := parts[1];
            SkillChecklist(header);
            (if !Contains(header, "name:") then ["Missing field: name"] else [])
            + (if !Contains(header, "description:") then ["Missing field: description"] else [])
          else []);
      Report(|issues| == 0, issues)
  }

  /** The two hand-written skill field checks are the generic field check over
      `SkillLabels`. */
  lemma SkillChecklist(header: string)
    ensures MissingFields(SkillLabels, header)
      == (if !Contains(header, "name:") then ["Missing field: name"] else [])
      + (if !Contains(header, "description:") then ["Missing field: description"] else [])
  {
    assert FieldIssue("name:") == "Missing field: name" by {
      assert RStrip("name:", ':') == "name";
    }
    assert FieldIssue("description:") == "Missing field: description" by {
      assert RStrip("description:", ':') == "description";
    }
    assert SkillLabels[1..] == ["description:"];
    assert SkillLabels[1..][1..] == [];
    assert MissingFields(SkillLabels[1..][1..], header) == [];
  }

  /** `validate_doc`, with the document's text given as input. */
  function CheckDoc(content: string): (r: Report)
    ensures r.valid <==> r.issues == []
    ensures !StartsWith(content, Delimiter) ==> r.issues == [MissingFrontmatter]
    ensures StartsWith(content, Delimiter) ==>
      r.issues == MissingFields(DocLabels, HeaderSegment(content))
  {
    var issues :=
      if !StartsWith(content, Delimiter) then [MissingFrontmatter]
      else (
        var parts := Split(content, Delimiter, 2);
        SplitYieldsHeader(content);
        if |parts| >= 2 then MissingFields(DocLabels, parts[1]) else []);
    Report(|issues| == 0, issues)
  }

  /** The issue texts for a list of labels, one per label, in list order. */
  function AllFieldIssues(labels: seq<string>): seq<string>
  {
    seq(|labels|, i requires 0 <= i < |labels| => FieldIssue(labels[i]))
  }

  /** No two labels of the list are reported with the same text. */
  predicate DistinctIssues(labels: seq<string>)
  {
    forall i, j :: 0 <= i < j < |labels| ==> FieldIssue(labels[i]) != FieldIssue(labels[j])
  }

  /** Every absent label is reported. */
  lemma {:induction false} MissingLabelReported(labels: seq<string>, header: string, i: nat)
    requires i < |labels| && !Contains(header, labels[i])
    ensures FieldIssue(labels[i]) in MissingFields(labels, header)
    decreases i
  {
    if i > 0 {
      MissingLabelReported(labels[1..], header, i - 1);
    }
  }

  /** With distinct issue texts, a label's issue is reported exactly when the
      label is absent from the header text. */
  lemma MissingFieldsExact(labels: seq<string>, header: string, i: nat)
    requires DistinctIssues(labels) && i < |labels|
    ensures FieldIssue(labels[i]) in MissingFields(labels, header) <==> !Contains(header, labels[i])
  {
    if !Contains(header, labels[i]) {
      MissingLabelReported(labels, header, i);
    }
  }

  /** The field check reports nothing exactly when every label occurs in the
      header text. */
  lemma {:induction false} NoMissingFieldsIffAllPresent(labels: seq<string>, header: string)
    ensures MissingFields(labels, header) == []
      <==> forall i :: 0 <= i < |labels| ==> Contains(header, labels[i])
  {
    if |labels| > 0 {
      NoMissingFieldsIffAllPresent(labels[1..], header);
      assert forall i :: 1 <= i < |labels| ==> labels[1..][i - 1] == labels[i];
    }
  }

  /** `a` is a subsequence of `b`: `a` can be obtained from `b` by deleting
      elements, so it keeps their relative order. */
  predicate IsSubsequence<T(==)>(a: seq<T>, b: seq<T>)
    decreases |b|
  {
    || |a| == 0
    || (&& |b| > 0
        && ((a[0] == b[0] && IsSubsequence(a[1..], b[1..])) || IsSubsequence(a, b[1..])))
  }

  /** The reported issues keep the order of the label list: they are a
      subsequence of the issue texts of all labels. */
  lemma {:induction false} MissingFieldsInOrder(labels: seq<string>, header: string)
    ensures IsSubsequence(MissingFields(labels, header), AllFieldIssues(labels))
  {
    if |labels| > 0 {
      MissingFieldsInOrder(labels[1..], header);
      assert AllFieldIssues(labels)[1..] == AllFieldIssues(labels[1..]);
    }
  }

  /** Labels at the front of the list that all occur contribute nothing: the
      issues are those of the labels after them. */
  lemma {:induction false} PresentPrefixSkipped(labels: seq<string>, header: string, n: nat)
    requires n <= |labels|
    requires forall i :: 0 <= i < n ==> Contains(header, labels[i])
    ensures MissingFields(labels, header) == MissingFields(labels[n..], header)
    decreases n
  {
    if n > 0 {
      assert forall i :: 0 <= i < n - 1 ==> labels[1..][i] == labels[i + 1];
      PresentPrefixSkipped(labels[1..], header, n - 1);
      assert labels[1..][n - 1..] == labels[n..];
    }
  }

  /** When no label occurs, every label is reported, in list order. */
  lemma {:induction false} AllAbsentAllReported(labels: seq<string>, header: string)
    requires forall i :: 0 <= i < |labels| ==> !Contains(header, labels[i])
    ensures MissingFields(labels, header) == AllFieldIssues(labels)
  {
    if |labels| > 0 {
      assert forall i :: 0 <= i < |labels| - 1 ==> labels[1..][i] == labels[i + 1];
      AllAbsentAllReported(labels[1..], header);
      assert AllFieldIssues(labels) == [FieldIssue(labels[0])] + AllFieldIssues(labels[1..]);
    }
  }

  /** The field names the document issues mention: the labels without their
      colon. */
  const DocFieldNames: seq<string> := ["title", "date", "topic", "tags", "status"]

  /** The issue texts of the document labels, in check order. */
  const DocIssues: seq<string> :=
    seq(|DocFieldNames|, i requires 0 <= i < |DocFieldNames| => MissingFieldPrefix + DocFieldNames[i])

  /** The issue texts of the skill labels, in check order. */
  const SkillIssues: seq<string> := [MissingFieldPrefix + "name", MissingFieldPrefix + "description"]

  /** Stripping the colon from the document labels gives the five issue
      texts. */
  lemma DocIssueTexts()
    ensures AllFieldIssues(DocLabels) == DocIssues
  {
    assert RStrip("title:", ':') == "title";
    assert RStrip("date:", ':') == "date";
    assert RStrip("topic:", ':') == "topic";
    assert RStrip("tags:", ':') == "tags";
    assert RStrip("status:", ':') == "status";
  }

  /** Texts that share a prefix differ when what follows it differs. */
  lemma PrefixedDiffer(p: string, a: string, b: string)
    requires a != b
    ensures p + a != p + b
  {
    assert (p + a)[|p|..] == a;
    assert (p + b)[|p|..] == b;
  }

  /** No two document labels are reported with the same text. */
  lemma DocIssuesDistinct()
    ensures DistinctIssues(DocLabels)
  {
    DocIssueTexts();
    forall i, j | 0 <= i < j < |DocFieldNames|
      ensures DocIssues[i] != DocIssues[j]
    {
      if i == 0 && j == 2 {
        assert DocFieldNames[i][1] != DocFieldNames[j][1];
      } else if i == 1 && j == 3 {
        assert DocFieldNames[i][0] != DocFieldNames[j][0];
      } else {
        assert |DocFieldNames[i]| != |DocFieldNames[j]|;
      }
      PrefixedDiffer(MissingFieldPrefix, DocFieldNames[i], DocFieldNames[j]);
    }
    assert forall i :: 0 <= i < |DocLabels| ==> FieldIssue(DocLabels[i]) == DocIssues[i];
  }

  /** The two skill labels are reported as the two skill issue texts, and they
      differ. */
  lemma SkillIssueTexts()
    ensures AllFieldIssues(SkillLabels) == SkillIssues
    ensures DistinctIssues(SkillLabels)
  {
    assert RStrip("name:", ':') == "name";
    assert RStrip("description:", ':') == "description";
    PrefixedDiffer(MissingFieldPrefix, "name", "description");
  }

  /** For a document with a header block: each of the five issues is reported
      exactly when its label is absent from the header block, the issues come
      in the order title, date, topic, tags, status, and there are at most
      five of them. */
  lemma DocFieldIssues(content: string)
    requires StartsWith(content, Delimiter)
    ensures var r := CheckDoc(content);
      forall i :: 0 <= i < |DocLabels| ==>
        (DocIssues[i] in r.issues <==> !Contains(HeaderSegment(content), DocLabels[i]))
    ensures IsSubsequence(CheckDoc(content).issues, DocIssues)
    ensures |CheckDoc(content).issues| <= 5
  {
    DocIssueTexts();
    DocIssuesDistinct();
    forall i | 0 <= i < |DocLabels|
      ensures DocIssues[i] in CheckDoc(content).issues
        <==> !Contains(HeaderSegment(content), DocLabels[i])
    {
      assert DocIssues[i] == FieldIssue(DocLabels[i]);
      MissingFieldsExact(DocLabels, HeaderSegment(content), i);
    }
    MissingFieldsInOrder(DocLabels, HeaderSegment(content));
  }

  /** For a skill manifest with a header block: each of the two issues is
      reported exactly when its label is absent from the header block, `name`
      before `description`, so at most two of them. */
  lemma SkillFieldIssues(content: string)
    requires StartsWith(content, Delimiter)
    ensures var r := CheckSkill(true, content);
      forall i :: 0 <= i < |SkillLabels| ==>
        (SkillIssues[i] in r.issues <==> !Contains(HeaderSegment(content), SkillLabels[i]))
    ensures IsSubsequence(CheckSkill(true, content).issues, SkillIssues)
    ensures |CheckSkill(true, content).issues| <= 2
  {
    SkillIssueTexts();
    forall i | 0 <= i < |SkillLabels|
      ensures SkillIssues[i] in CheckSkill(true, content).issues
        <==> !Contains(HeaderSegment(content), SkillLabels[i])
    {
      assert SkillIssues[i] == FieldIssue(SkillLabels[i]);
      MissingFieldsExact(SkillLabels, HeaderSegment(content), i);
    }
    MissingFieldsInOrder(SkillLabels, HeaderSegment(content));
  }

  /** A document passes exactly when it opens with the delimiter and all five
      labels occur in its header block. */
  lemma DocValidIff(content: string)
    ensures CheckDoc(content).valid <==>
      && StartsWith(content, Delimiter)
      && forall i :: 0 <= i < |DocLabels| ==> Contains(HeaderSegment(content), DocLabels[i])
  {
    if StartsWith(content, Delimiter) {
      NoMissingFieldsIffAllPresent(DocLabels, HeaderSegment(content));
    }
  }

  /** A skill passes exactly when its manifest exists, opens with the
      delimiter, and both labels occur in its header block. */
  lemma SkillValidIff(manifestExists: bool, content: string)
    ensures CheckSkill(manifestExists, content).valid <==>
      && manifestExists
      && StartsWith(content, Delimiter)
      && Contains(HeaderSegment(content), "name:")
      && Contains(HeaderSegment(content), "description:")
  {
    if manifestExists && StartsWith(content, Delimiter) {
      NoMissingFieldsIffAllPresent(SkillLabels, HeaderSegment(content));
    }
  }

  /** When the delimiter that follows `header` is the first one after the
      opening delimiter, the header block is `header`, whatever the body. */
  lemma HeaderStopsAtClosingDelimiter(header: string, body: string)
    requires forall j :: 0 <= j < |header| ==> !OccursAt(header + Delimiter, Delimiter, j)
    ensures StartsWith(Delimiter + header + Delimiter + body, Delimiter)
    ensures HeaderSegment(Delimiter + header + Delimiter + body) == header
  {
    var content := Delimiter + header + Delimiter + body;
    assert content[..|Delimiter|] == Delimiter;
    var rest := content[|Delimiter|..];
    assert rest == header + Delimiter + body;
    var h := HeaderSegment(content);
    assert rest[|header|..|header| + |Delimiter|] == Delimiter;
    assert OccursAt(rest, Delimiter, |header|);
    forall j | 0 <= j < |header| && OccursAt(rest, Delimiter, j)
      ensures OccursAt(header + Delimiter, Delimiter, j)
    {
      assert rest[j..j + |Delimiter|] == (header + Delimiter)[j..j + |Delimiter|];
    }
    assert |h| == |header|;
    assert h == rest[..|h|] == header;
  }

  /** Text after the closing delimiter plays no part in either check: labels
      that occur only in the body are not counted. */
  lemma BodyIsIgnored(header: string, body1: string, body2: string, manifestExists: bool)
    requires forall j :: 0 <= j < |header| ==> !OccursAt(header + Delimiter, Delimiter, j)
    ensures CheckDoc(Delimiter + header + Delimiter + body1)
         == CheckDoc(Delimiter + header + Delimiter + body2)
    ensures CheckSkill(manifestExists, Delimiter + header + Delimiter + body1)
         == CheckSkill(manifestExists, Delimiter + header + Delimiter + body2)
  {
    HeaderStopsAtClosingDelimiter(header, body1);
    HeaderStopsAtClosingDelimiter(header, body2);
  }
}
