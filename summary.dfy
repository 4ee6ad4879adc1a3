/**
 * The change summary `generateCommitMessageFromGitChanges` builds from the
 * repository's status: one section per modified file with its diff entries,
 * then the created files, then the deleted files, separated by blank lines.
 * The answers of the git client (whether the folder is a repository, the
 * status lists, each file's insertion and deletion counts and diff text)
 * are inputs.
 */
module ChangeSummary {
  import opened Wrappers
  import opened Text
  import opened Seqs
  import opened DiffLines

  /** A modified file as the git client reports it: its path, the counts
      from the diff summary and the text of its diff. */
  datatype ModifiedFile = ModifiedFile(path: string, insertions: nat, deletions: nat, diff: string)

  /** The record kept for a modified file: its path, its counts and the
      entries extracted from its diff. */
  datatype FileChange = FileChange(file: string, additions: nat, deletions: nat, details: seq<string>)

  function Record(m: ModifiedFile): FileChange {
    FileChange(m.path, m.insertions, m.deletions, DiffChanges(m.diff))
  }

  /** `Modified <path> (+<additions>/-<deletions>):` */
  function Header(c: FileChange): string {
    "Modified " + c.file + " (+" + NatToString(c.additions) + "/-" + NatToString(c.deletions) + "):"
  }

  function Indent(detail: string): string {
    "    " + detail
  }

  /** The entries, each indented by four spaces, one per line. */
  function Details(c: FileChange): string {
    Join(Map(c.details, Indent), "\n")
  }

  /** The section of one modified file: the header, and below it the
      entries when the joined entries are not blank. */
  function Section(c: FileChange): string {
    if Trim(Details(c)) != "" then Header(c) + "\n" + Details(c) else Header(c)
  }

  function CreatedSection(created: seq<string>): string {
    "Added: " + Join(created, ", ")
  }

  function DeletedSection(deleted: seq<string>): string {
    "Deleted: " + Join(deleted, ", ")
  }

  /** The sections in order: modified files, then created, then deleted. */
  function Parts(records: seq<FileChange>, created: seq<string>, deleted: seq<string>): seq<string> {
    Map(records, Section)
      + (if |created| > 0 then [CreatedSection(created)] else [])
      + (if |deleted| > 0 then [DeletedSection(deleted)] else [])
  }

  /** The summary, or nothing when there is no workspace folder, when it is
      not a repository, or when nothing was modified, created or deleted. */
  function Summary(hasFolder: bool, isRepo: bool, modified: seq<ModifiedFile>,
                   created: seq<string>, deleted: seq<string>): Option<string>
  {
    if !hasFolder || !isRepo then None
    else
      var records := Map(modified, Record);
      if |records| == 0 && |created| == 0 && |deleted| == 0 then None
      else Some(Join(Parts(records, created, deleted), "\n\n"))
  }

  /** The builder: the records of the modified files, the emptiness
      check, then the parts and their join. The renamed files are accepted
      and never used. */
  method GenerateSummary(hasFolder: bool, isRepo: bool, modified: seq<ModifiedFile>,
                         created: seq<string>, deleted: seq<string>, renamed: seq<string>)
    returns (r: Option<string>)
    ensures r == Summary(hasFolder, isRepo, modified, created, deleted)
    ensures r.None? <==> !hasFolder || !isRepo || (modified == [] && created == [] && deleted == [])
  {
    if !hasFolder {
      return None;
    }
    if !isRepo {
      return None;
    }
    var records := CollectRecords(modified);
    if |records| == 0 && |created| == 0 && |deleted| == 0 {
      return None;
    }
    var parts := RenderParts(records, created, deleted);
    r := Some(Join(parts, "\n\n"));
  }

  /** The loop over the modified files: one record each, in status order. */
  method CollectRecords(modified: seq<ModifiedFile>) returns (records: seq<FileChange>)
    ensures records == Map(modified, Record)
  {
    records := [];
    for i := 0 to |modified|
      invariant records == Map(modified[..i], Record)
    {
      var file := modified[i];
      var changes := DiffChanges(file.diff);
      MapSnoc(modified[..i], file, Record);
      assert modified[..i + 1] == modified[..i] + [file];
      records := records + [FileChange(file.path, file.insertions, file.deletions, changes)];
    }
    assert modified[..|modified|] == modified;
  }

  /** The parts in order: a section per record, then the created files,
      then the deleted files, each only when there are any. */
  method RenderParts(records: seq<FileChange>, created: seq<string>, deleted: seq<string>)
    returns (parts: seq<string>)
    ensures parts == Parts(records, created, deleted)
  {
    parts := [];
    for i := 0 to |records|
      invariant parts == Map(records[..i], Section)
    {
      MapSnoc(records[..i], records[i], Section);
      assert records[..i + 1] == records[..i] + [records[i]];
      parts := parts + [Section(records[i])];
    }
    assert records[..|records|] == records;
    if |created| > 0 {
      parts := parts + [CreatedSection(created)];
    }
    if |deleted| > 0 {
      parts := parts + [DeletedSection(deleted)];
    }
  }

  // ---- Properties of the rendering ----

  lemma {:induction false} DetailsStart(c: FileChange)
    requires c.details != [] && Tagged(c.details[0])
    ensures |Details(c)| > 4 && !IsWhitespace(Details(c)[4])
  {
    var ind := Map(c.details, Indent);
    MapIndex(c.details, Indent);
    JoinStartsWithFirst(ind, "\n");
    var d := Details(c);
    assert d[..|ind[0]|] == ind[0];
    assert ind[0][4] == c.details[0][0];
    assert d[4] == d[..|ind[0]|][4];
  }

  /** The joined entries are blank exactly when there are none, so a
      section is its header alone exactly when its file has no entries. */
  lemma {:induction false} SectionHeaderAloneIff(c: FileChange)
    requires forall k :: 0 <= k < |c.details| ==> Tagged(c.details[k])
    ensures Trim(Details(c)) == "" <==> c.details == []
    ensures Section(c) == Header(c) <==> c.details == []
  {
    TrimEmptyIff(Details(c));
    if c.details != [] {
      DetailsStart(c);
      assert !AllWhitespace(Details(c));
      assert |Section(c)| > |Header(c)|;
    } else {
      assert Details(c) == "";
    }
  }

  /** The section of a modified file is its header alone exactly when its
      diff yields no entries. */
  lemma {:induction false} ModifiedHeaderAloneIff(m: ModifiedFile)
    ensures Section(Record(m)) == Header(Record(m)) <==> DiffChanges(m.diff) == []
  {
    DiffChangesTagged(m.diff);
    SectionHeaderAloneIff(Record(m));
  }

  lemma {:induction false} HeaderOneLine(c: FileChange)
    requires Lacks(c.file, '\n')
    ensures Lacks(Header(c), '\n')
  {
    var a, d := NatToString(c.additions), NatToString(c.deletions);
    assert Lacks(a, '\n') && Lacks(d, '\n');
    LacksAppend("Modified ", c.file, '\n');
    LacksAppend("Modified " + c.file, " (+", '\n');
    LacksAppend("Modified " + c.file + " (+", a, '\n');
    LacksAppend("Modified " + c.file + " (+" + a, "/-", '\n');
    LacksAppend("Modified " + c.file + " (+" + a + "/-", d, '\n');
    LacksAppend("Modified " + c.file + " (+" + a + "/-" + d, "):", '\n');
  }

  /** The lines of a section are its header followed by one line per entry,
      indented by four spaces, in order. */
  lemma {:induction false} SectionLines(c: FileChange)
    requires Lacks(c.file, '\n')
    requires forall k :: 0 <= k < |c.details| ==> Tagged(c.details[k]) && Lacks(c.details[k], '\n')
    ensures Split(Section(c), '\n') == [Header(c)] + Map(c.details, Indent)
  {
    HeaderOneLine(c);
    SplitWithoutSeparator(Header(c), '\n');
    SectionHeaderAloneIff(c);
    var ind := Map(c.details, Indent);
    if c.details == [] {
      assert [Header(c)] + ind == [Header(c)];
    } else {
      MapIndex(c.details, Indent);
      forall k | 0 <= k < |ind| ensures Lacks(ind[k], '\n') {
        LacksAppend("    ", c.details[k], '\n');
      }
      SplitConcat(Header(c), '\n', Details(c));
      SplitUnique(ind, '\n');
    }
  }

  /** The section of a modified file: the header, then one indented line per
      entry extracted from its diff. */
  lemma {:induction false} ModifiedSectionLines(m: ModifiedFile)
    requires Lacks(m.path, '\n')
    ensures Split(Section(Record(m)), '\n') == [Header(Record(m))] + Map(DiffChanges(m.diff), Indent)
  {
    DiffChangesTagged(m.diff);
    DiffChangesOneLine(m.diff);
    SectionLines(Record(m));
  }

  // ---- Worked examples ----

  /** A repository with changes gets the join of its parts. */
  lemma {:induction false} SummaryOfChanges(modified: seq<ModifiedFile>, created: seq<string>, deleted: seq<string>)
    requires modified != [] || created != [] || deleted != []
    ensures Summary(true, true, modified, created, deleted)
      == Some(Join(Parts(Map(modified, Record), created, deleted), "\n\n"))
  {
  }

  /** Only a created file: the summary is the one `Added:` section. */
  lemma {:induction false} CreatedOnlyExample(created: seq<string>)
    requires created == ["new.txt"]
    ensures Summary(true, true, [], created, []) == Some("Added: new.txt")
  {
    SummaryOfChanges([], created, []);
    assert Map([], Record) == [];
    assert Map([], Section) == [];
    var p := CreatedSection(created);
    assert Parts([], created, []) == [p];
    assert Join(created, ", ") == "new.txt";
    assert p == "Added: new.txt";
    assert Join([p], "\n\n") == p;
  }

  /** One modified file whose diff adds one line, and one deleted file. */
  lemma {:induction false} ModifiedAndDeletedExample(m: ModifiedFile, deleted: seq<string>)
    requires m == ModifiedFile("a.txt", 1, 0, "+foo") && deleted == ["old.txt"]
    ensures Summary(true, true, [m], [], deleted)
      == Some("Modified a.txt (+1/-0):\n    Added: foo\n\nDeleted: old.txt")
  {
    SummaryOfChanges([m], [], deleted);
    ExampleRecord(m);
    MapSingle(m, Record);
    var p, q := ExampleParts(Record(m), deleted);
    ExampleJoin(p, q);
  }

  lemma {:induction false} ExampleParts(c: FileChange, deleted: seq<string>) returns (p: string, q: string)
    requires c == FileChange("a.txt", 1, 0, ["Added: foo"]) && deleted == ["old.txt"]
    ensures Parts([c], [], deleted) == [p, q]
    ensures p == "Modified a.txt (+1/-0):\n    Added: foo" && q == "Deleted: old.txt"
  {
    ExampleSection(c);
    MapSingle(c, Section);
    p, q := Section(c), DeletedSection(deleted);
    assert Join(deleted, ", ") == "old.txt";
  }

  lemma {:induction false} ExampleJoin(p: string, q: string)
    requires p == "Modified a.txt (+1/-0):\n    Added: foo" && q == "Deleted: old.txt"
    ensures Join([p, q], "\n\n") == "Modified a.txt (+1/-0):\n    Added: foo\n\nDeleted: old.txt"
  {
    assert [p, q][1..] == [q];
  }

  lemma {:induction false} ExampleRecord(m: ModifiedFile)
    requires m == ModifiedFile("a.txt", 1, 0, "+foo")
    ensures Record(m) == FileChange("a.txt", 1, 0, ["Added: foo"])
  {
    AddedLine(m.diff);
  }

  lemma {:induction false} ExampleSection(c: FileChange)
    requires c == FileChange("a.txt", 1, 0, ["Added: foo"])
    ensures Section(c) == "Modified a.txt (+1/-0):\n    Added: foo"
  {
    assert Tagged(c.details[0]);
    SectionHeaderAloneIff(c);
    MapSingle("Added: foo", Indent);
    ExampleHeader(c);
  }

  lemma {:induction false} ExampleHeader(c: FileChange)
    requires c == FileChange("a.txt", 1, 0, ["Added: foo"])
    ensures Header(c) == "Modified a.txt (+1/-0):"
  {
    assert NatToString(1) == "1" && NatToString(0) == "0";
  }
}
