/**
 * The diff-line extractor inside `generateCommitMessageFromGitChanges`: the
 * text of `git diff` is split into lines, the lines starting with `+` or `-`
 * are kept, the `+++` / `---` file headers are dropped, each remaining line
 * becomes `Added: <rest>` or `Removed: <rest>` with the rest trimmed, and
 * empty entries are dropped.
 */
module DiffLines {
  import opened Text
  import opened Seqs

  /** First filter: the line starts with `+` or `-`. */
  predicate Signed(line: string) {
    StartsWith(line, "+") || StartsWith(line, "-")
  }

  /** Second filter: the line is not a `+++` or `---` file header. */
  predicate NotHeader(line: string) {
    !StartsWith(line, "+++") && !StartsWith(line, "---")
  }

  /** A line the extractor reports. */
  predicate IsChangeLine(line: string) {
    Signed(line) && NotHeader(line)
  }

  /** `String.prototype.substring(1)`: everything after the first
      character, and nothing for an empty string. */
  function AfterFirst(line: string): (r: string)
    ensures |line| >= 1 ==> line == [line[0]] + r
    ensures |line| == 0 ==> r == []
  {
    if |line| >= 1 then line[1..] else []
  }

  /** An entry begins with one of the two tags. */
  predicate Tagged(entry: string) {
    StartsWith(entry, "Added: ") || StartsWith(entry, "Removed: ")
  }

  /** The entry for one kept line: `Added` for a `+` line, `Removed`
      otherwise, then the trimmed rest of the line. */
  function Describe(line: string): (r: string)
    ensures Tagged(r)
    ensures StartsWith(r, "Added: ") <==> StartsWith(line, "+")
  {
    var tag := if StartsWith(line, "+") then "Added" else "Removed";
    var r := tag + ": " + Trim(AfterFirst(line));
    assert r[0] == tag[0];
    r
  }

  /** The last filter of the pipeline: the entry is not empty. */
  predicate NonEmpty(entry: string) {
    |entry| > 0
  }

  /** The extraction pipeline applied to the lines of a diff. */
  function ChangesOfLines(lines: seq<string>): seq<string> {
    Filter(Described(lines), NonEmpty)
  }

  /** The entries extracted from the text of a diff. */
  function DiffChanges(diff: string): seq<string> {
    ChangesOfLines(Split(diff, '\n'))
  }

  /** An independent one-pass reading of the pipeline: each line in turn
      contributes its entry when it is a change line, and nothing otherwise. */
  function Reference(lines: seq<string>): seq<string>
    decreases |lines|
  {
    if lines == [] then []
    else (if IsChangeLine(lines[0]) then [Describe(lines[0])] else []) + Reference(lines[1..])
  }

  /** The pipeline before its last filter. */
  function Described(lines: seq<string>): seq<string> {
    Map(Filter(Filter(lines, Signed), NotHeader), Describe)
  }

  /** The last filter of the pipeline never removes an entry. */
  lemma {:induction false} LastFilterKeepsAll(lines: seq<string>)
    ensures ChangesOfLines(lines) == Described(lines)
  {
    var m := Described(lines);
    MapIndex(Filter(Filter(lines, Signed), NotHeader), Describe);
    forall k | 0 <= k < |m| ensures NonEmpty(m[k]) {
      assert Tagged(m[k]);
    }
    FilterKeepsAll(m, NonEmpty);
  }

  /** Every extracted entry carries one of the two tags. */
  lemma {:induction false} DiffChangesTagged(diff: string)
    ensures forall k :: 0 <= k < |DiffChanges(diff)| ==> Tagged(DiffChanges(diff)[k])
  {
    var lines := Split(diff, '\n');
    LastFilterKeepsAll(lines);
    MapIndex(Filter(Filter(lines, Signed), NotHeader), Describe);
  }

  /** No entry contains a line break. */
  lemma {:induction false} DiffChangesOneLine(diff: string)
    ensures forall k :: 0 <= k < |DiffChanges(diff)| ==> Lacks(DiffChanges(diff)[k], '\n')
  {
    var lines := Split(diff, '\n');
    SplitPiecesLack(diff, '\n');
    PipelineIsReference(lines);
    ReferenceOneLine(lines);
  }

  lemma {:induction false} ReferenceOneLine(lines: seq<string>)
    requires forall k :: 0 <= k < |lines| ==> Lacks(lines[k], '\n')
    ensures forall k :: 0 <= k < |Reference(lines)| ==> Lacks(Reference(lines)[k], '\n')
    decreases |lines|
  {
    if lines != [] {
      ReferenceOneLine(lines[1..]);
      var head := if IsChangeLine(lines[0]) then [Describe(lines[0])] else [];
      if IsChangeLine(lines[0]) {
        DescribeOneLine(lines[0]);
      }
      var r := Reference(lines);
      assert r == head + Reference(lines[1..]);
      forall k | 0 <= k < |r| ensures Lacks(r[k], '\n') {
        if k >= |head| { assert r[k] == Reference(lines[1..])[k - |head|]; }
      }
    }
  }

  lemma {:induction false} DescribeOneLine(line: string)
    requires Lacks(line, '\n')
    ensures Lacks(Describe(line), '\n')
  {
    var rest := AfterFirst(line);
    assert Lacks(rest, '\n') by {
      if |line| >= 1 {
        forall k | 0 <= k < |rest| ensures rest[k] != '\n' { assert rest[k] == line[k + 1]; }
      }
    }
    var a, b := TrimSlice(rest);
    assert Lacks(Trim(rest), '\n') by {
      forall k | 0 <= k < b - a ensures Trim(rest)[k] != '\n' { assert Trim(rest)[k] == rest[a + k]; }
    }
    var tag := if StartsWith(line, "+") then "Added" else "Removed";
    LacksAppend(tag + ": ", Trim(rest), '\n');
  }

  /** The pipeline agrees with the one-pass reference on every list of lines. */
  lemma {:induction false} PipelineIsReference(lines: seq<string>)
    ensures ChangesOfLines(lines) == Reference(lines)
  {
    LastFilterKeepsAll(lines);
    DescribedIsReference(lines);
  }

  lemma {:induction false} DescribedIsReference(lines: seq<string>)
    ensures Described(lines) == Reference(lines)
    decreases |lines|
  {
    if lines != [] {
      DescribedIsReference(lines[1..]);
      DescribedStep(lines[0], lines[1..]);
      assert lines == [lines[0]] + lines[1..];
    }
  }

  lemma {:induction false} DescribedStep(x: string, rest: seq<string>)
    ensures Described([x] + rest) == (if IsChangeLine(x) then [Describe(x)] else []) + Described(rest)
  {
    FilterCons(x, rest, Signed);
    var f := Filter(rest, Signed);
    if Signed(x) {
      FilterCons(x, f, NotHeader);
      if NotHeader(x) {
        MapCons(x, Filter(f, NotHeader), Describe);
      } else {
        assert [] + Filter(f, NotHeader) == Filter(f, NotHeader);
      }
    } else {
      assert [] + f == f;
    }
  }

  /** The reference reading distributes over concatenated lists of lines. */
  lemma {:induction false} ReferenceAppend(xs: seq<string>, ys: seq<string>)
    ensures Reference(xs + ys) == Reference(xs) + Reference(ys)
    decreases |xs|
  {
    if xs != [] {
      assert (xs + ys)[1..] == xs[1..] + ys;
      ReferenceAppend(xs[1..], ys);
    } else {
      assert xs + ys == ys;
    }
  }

  /** The entries of two diff texts joined by a line break are the entries
      of the first followed by those of the second: entries keep the order
      of their lines. */
  lemma {:induction false} DiffChangesAppend(a: string, b: string)
    ensures DiffChanges(a + "\n" + b) == DiffChanges(a) + DiffChanges(b)
  {
    SplitConcat(a, '\n', b);
    PipelineIsReference(Split(a + "\n" + b, '\n'));
    PipelineIsReference(Split(a, '\n'));
    PipelineIsReference(Split(b, '\n'));
    ReferenceAppend(Split(a, '\n'), Split(b, '\n'));
  }

  /** A single line yields its entry exactly when it is a change line. */
  lemma {:induction false} DiffChangesLine(line: string)
    requires Lacks(line, '\n')
    ensures DiffChanges(line) == if IsChangeLine(line) then [Describe(line)] else []
  {
    SplitWithoutSeparator(line, '\n');
    PipelineIsReference([line]);
    assert [line][1..] == [];
  }

  // ---- Entries of single lines ----

  /** `+` followed by trimmed text that does not make a header yields
      `Added: ` and that text. */
  lemma {:induction false} AddedEntry(t: string)
    requires Lacks(t, '\n') && Trimmed(t) && !StartsWith(t, "++")
    ensures DiffChanges(['+'] + t) == ["Added: " + t]
  {
    LacksCons('+', t, '\n');
    SignedEntry('+', t);
    DiffChangesLine(['+'] + t);
  }

  /** `-` followed by trimmed text that does not make a header yields
      `Removed: ` and that text. */
  lemma {:induction false} RemovedEntry(t: string)
    requires Lacks(t, '\n') && Trimmed(t) && !StartsWith(t, "--")
    ensures DiffChanges(['-'] + t) == ["Removed: " + t]
  {
    LacksCons('-', t, '\n');
    SignedEntry('-', t);
    DiffChangesLine(['-'] + t);
  }

  /** The entry of a signed line whose text is already trimmed. */
  lemma {:induction false} SignedEntry(sign: char, t: string)
    requires sign == '+' || sign == '-'
    requires Trimmed(t) && !StartsWith(t, [sign, sign])
    ensures IsChangeLine([sign] + t)
    ensures Describe([sign] + t) == (if sign == '+' then "Added: " else "Removed: ") + t
  {
    SignedLine(sign, t);
    assert AfterFirst([sign] + t) == t;
    TrimOfTrimmed(t);
  }

  /** A `+++` or `---` file header yields nothing. */
  lemma {:induction false} HeaderEntry(sign: char, t: string)
    requires sign == '+' || sign == '-'
    requires Lacks(t, '\n') && StartsWith(t, [sign, sign])
    ensures DiffChanges([sign] + t) == []
  {
    LacksCons(sign, t, '\n');
    SignedLine(sign, t);
    DiffChangesLine([sign] + t);
  }

  /** A line that starts with neither sign yields nothing. */
  lemma {:induction false} UnsignedEntry(line: string)
    requires Lacks(line, '\n')
    requires line == [] || (line[0] != '+' && line[0] != '-')
    ensures DiffChanges(line) == []
  {
    DiffChangesLine(line);
  }

  lemma {:induction false} LacksCons(x: char, t: string, c: char)
    requires x != c && Lacks(t, c)
    ensures Lacks([x] + t, c)
  {
  }

  /** Which sign and which header a line starts with is decided by its
      first characters. */
  lemma {:induction false} SignedLine(sign: char, t: string)
    requires sign == '+' || sign == '-'
    ensures Signed([sign] + t)
    ensures StartsWith([sign] + t, "+") <==> sign == '+'
    ensures StartsWith([sign] + t, [sign, sign, sign]) <==> StartsWith(t, [sign, sign])
    ensures NotHeader([sign] + t) <==> !StartsWith(t, [sign, sign])
  {
    var line := [sign] + t;
    assert line[..1] == [sign];
    if |t| >= 2 {
      assert line[..3] == [sign] + t[..2];
    }
  }

  // ---- Worked examples ----

  lemma {:induction false} AddedLine(line: string)
    requires line == "+foo"
    ensures DiffChanges(line) == ["Added: foo"]
  {
    var t := "foo";
    assert line == ['+'] + t;
    assert Lacks(t, '\n') && Trimmed(t) && !StartsWith(t, "++");
    AddedEntry(t);
    assert "Added: " + t == "Added: foo";
  }

  lemma {:induction false} RemovedLine(line: string)
    requires line == "-bar"
    ensures DiffChanges(line) == ["Removed: bar"]
  {
    var t := "bar";
    assert line == ['-'] + t;
    assert Lacks(t, '\n') && Trimmed(t) && !StartsWith(t, "--");
    RemovedEntry(t);
    assert "Removed: " + t == "Removed: bar";
  }

  lemma {:induction false} AddedHeaderLine(line: string)
    requires line == "+++ b/f"
    ensures DiffChanges(line) == []
  {
    var t := "++ b/f";
    assert line == ['+'] + t;
    assert Lacks(t, '\n') && StartsWith(t, ['+', '+']);
    HeaderEntry('+', t);
  }

  lemma {:induction false} RemovedHeaderLine(line: string)
    requires line == "--- a/f"
    ensures DiffChanges(line) == []
  {
    var t := "-- a/f";
    assert line == ['-'] + t;
    assert Lacks(t, '\n') && StartsWith(t, ['-', '-']);
    HeaderEntry('-', t);
  }

  lemma {:induction false} ContextLine(line: string)
    requires line == " ctx"
    ensures DiffChanges(line) == []
  {
    assert Lacks(line, '\n');
    UnsignedEntry(line);
  }

  /** A bare `+` yields the entry `Added: ` with nothing after it: the
      last filter removes nothing. */
  lemma {:induction false} BarePlusLine(line: string)
    requires line == "+"
    ensures DiffChanges(line) == ["Added: "]
  {
    assert line == ['+'] + [];
    AddedEntry([]);
    assert "Added: " + [] == "Added: ";
  }

  /** A whole diff: headers and context lines are dropped, the change lines
      come out in order. */
  lemma {:induction false} DiffExample(a: string, b: string, c: string, d: string, e: string)
    requires a == "--- a/f" && b == "+++ b/f" && c == " ctx" && d == "-bar" && e == "+foo"
    ensures DiffChanges(a + "\n" + (b + "\n" + (c + "\n" + (d + "\n" + e))))
      == ["Removed: bar", "Added: foo"]
  {
    DiffChangesAppend(a, b + "\n" + (c + "\n" + (d + "\n" + e)));
    DiffChangesAppend(b, c + "\n" + (d + "\n" + e));
    DiffChangesAppend(c, d + "\n" + e);
    DiffChangesAppend(d, e);
    RemovedHeaderLine(a);
    AddedHeaderLine(b);
    ContextLine(c);
    RemovedLine(d);
    AddedLine(e);
  }
}
