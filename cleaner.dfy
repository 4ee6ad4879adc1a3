/**
 * `cleanCommitMessage`: pick every non-overlapping occurrence of the pattern
 * `git commit -m "<run of non-quote characters>"` out of a suggestion, left to
 * right, and rebuild the occurrences as commands joined by single spaces; with
 * no occurrence, the suggestion is only trimmed.
 *
 * The global regular expression is modelled by a left-to-right scanner over
 * positions. A match at `start` consists of the literal Lead, the captured
 * span, and the closing quote at `close`.
 */
module CommitCleaner {
  import opened Wrappers
  import opened Text

  /** The literal part of the pattern, up to and including the opening quote. */
  const Lead: string := "git commit -m \""

  predicate QuoteFree(t: string) {
    forall k :: 0 <= k < |t| ==> t[k] != '"'
  }

  /** `s` holds the literal Lead at position `i`. */
  predicate LeadAt(s: string, i: nat) {
    i + |Lead| <= |s| && s[i..i + |Lead|] == Lead
  }

  /** The pattern matches `s[i..j + 1]`: the Lead at `i`, a run without
      quotes, and the closing quote at `j`. */
  predicate MatchAt(s: string, i: nat, j: nat) {
    LeadAt(s, i) && i + |Lead| <= j < |s| && QuoteFree(s[i + |Lead|..j]) && s[j] == '"'
  }

  datatype Match = Match(start: nat, close: nat)

  /** The first quote at or after `k`, if any. */
  function FindQuote(s: string, k: nat): (r: Option<nat>)
    requires k <= |s|
    ensures r.Some? ==> k <= r.value < |s|
    decreases |s| - k
  {
    if k == |s| then None
    else if s[k] == '"' then Some(k)
    else FindQuote(s, k + 1)
  }

  /** FindQuote reports a quote with no quote before it, or reports none
      exactly when the rest of the text has none. */
  lemma {:induction false} FindQuoteSound(s: string, k: nat)
    requires k <= |s|
    ensures var r := FindQuote(s, k);
      r.Some? ==> k <= r.value < |s| && s[r.value] == '"' && QuoteFree(s[k..r.value])
    ensures FindQuote(s, k).None? <==> QuoteFree(s[k..])
    decreases |s| - k
  {
    if k < |s| {
      assert s[k..][0] == s[k];
      if s[k] != '"' {
        FindQuoteSound(s, k + 1);
        assert forall m :: k + 1 <= m < |s| ==> s[k + 1..][m - k - 1] == s[k..][m - k] == s[m];
      }
    }
  }

  /** The quote the scanner finds is the first one: any quote that closes a
      quote-free run from `k` is the one FindQuote returns. */
  lemma {:induction false} FindQuoteFirst(s: string, k: nat, j: nat)
    requires k <= j < |s| && s[j] == '"' && QuoteFree(s[k..j])
    ensures FindQuote(s, k) == Some(j)
  {
    FindQuoteSound(s, k);
    assert s[k..][j - k] == s[j];
  }

  /** The occurrences the global pattern finds from position `i` on: each is
      a match, each lies after the previous one, in left-to-right order. */
  function Scan(s: string, i: nat): seq<Match>
    requires i <= |s|
    decreases |s| - i
  {
    if i + |Lead| > |s| then []
    else if LeadAt(s, i) then
      match FindQuote(s, i + |Lead|)
      case Some(j) => [Match(i, j)] + Scan(s, j + 1)
      case None => Scan(s, i + 1)
    else Scan(s, i + 1)
  }

  /** Each reported occurrence is a match at or after `i`, and each lies
      after the previous one. */
  lemma {:induction false} ScanSound(s: string, i: nat)
    requires i <= |s|
    ensures AllMatch(s, i, Scan(s, i))
    ensures Ordered(Scan(s, i))
    decreases |s| - i
  {
    if i + |Lead| <= |s| {
      if LeadAt(s, i) && FindQuote(s, i + |Lead|).Some? {
        var j := FindQuote(s, i + |Lead|).value;
        FindQuoteSound(s, i + |Lead|);
        ScanSound(s, j + 1);
        ScanTakes(s, i, j);
        SoundCons(s, i, Match(i, j), Scan(s, j + 1));
      } else {
        ScanSound(s, i + 1);
        ScanSkips(s, i);
      }
    }
  }

  lemma {:induction false} SoundCons(s: string, i: nat, m: Match, t: seq<Match>)
    requires i <= m.start && MatchAt(s, m.start, m.close)
    requires AllMatch(s, m.close + 1, t) && Ordered(t)
    ensures AllMatch(s, i, [m] + t) && Ordered([m] + t)
  {
    var r := [m] + t;
    forall k | 0 <= k < |r| ensures i <= r[k].start && MatchAt(s, r[k].start, r[k].close) {
      if k > 0 { assert r[k] == t[k - 1]; }
    }
    forall k | 0 <= k < |r| - 1 ensures r[k].close < r[k + 1].start {
      assert r[k + 1] == t[k];
      if k > 0 { assert r[k] == t[k - 1]; }
    }
  }

  /** Every element of `ms` is a match of `s` at or after `i`. */
  predicate AllMatch(s: string, i: nat, ms: seq<Match>) {
    forall k :: 0 <= k < |ms| ==> i <= ms[k].start && MatchAt(s, ms[k].start, ms[k].close)
  }

  /** Each match starts after the previous one's closing quote. */
  predicate Ordered(ms: seq<Match>) {
    forall k :: 0 <= k < |ms| - 1 ==> ms[k].close < ms[k + 1].start
  }

  /** One step of the scanner: an occurrence at `i` is reported and
      scanning resumes after its closing quote. */
  lemma {:induction false} ScanTakes(s: string, i: nat, j: nat)
    requires LeadAt(s, i) && FindQuote(s, i + |Lead|) == Some(j)
    ensures Scan(s, i) == [Match(i, j)] + Scan(s, j + 1)
  {
  }

  /** One step of the scanner: no occurrence at `i`, scanning moves on. */
  lemma {:induction false} ScanSkips(s: string, i: nat)
    requires i + |Lead| <= |s|
    requires !LeadAt(s, i) || FindQuote(s, i + |Lead|).None?
    ensures Scan(s, i) == Scan(s, i + 1)
  {
  }

  /** Position `p` lies within the occurrence `m`. */
  predicate Covers(m: Match, p: nat) {
    m.start <= p <= m.close
  }

  /** Every position where the pattern matches is either where a reported
      occurrence starts or inside one: no occurrence is skipped. */
  lemma {:induction false} ScanLeftmost(s: string, i: nat, p: nat, j: nat)
    requires i <= p && MatchAt(s, p, j)
    ensures exists k :: 0 <= k < |Scan(s, i)| && Covers(Scan(s, i)[k], p)
    decreases |s| - i
  {
    var r := Scan(s, i);
    if LeadAt(s, i) {
      match FindQuote(s, i + |Lead|)
      case Some(q) =>
        var t := Scan(s, q + 1);
        assert r == [Match(i, q)] + t;
        if p <= q {
          assert Covers(r[0], p);
        } else {
          ScanLeftmost(s, q + 1, p, j);
          var k :| 0 <= k < |t| && Covers(t[k], p);
          assert r[k + 1] == t[k];
        }
      case None =>
        // the quote closing the match at p follows i + |Lead|
        FindQuoteSound(s, i + |Lead|);
        assert false;
    } else {
      ScanLeftmost(s, i + 1, p, j);
    }
  }

  /** The matches lie within `s`, with room for the Lead before each span. */
  predicate Fits(s: string, ms: seq<Match>) {
    forall k :: 0 <= k < |ms| ==> ms[k].start + |Lead| <= ms[k].close <= |s|
  }

  /** The captured group of each match. */
  function Captured(s: string, ms: seq<Match>): (r: seq<string>)
    requires Fits(s, ms)
    ensures |r| == |ms|
    decreases |ms|
  {
    if ms == [] then []
    else [s[ms[0].start + |Lead|..ms[0].close]] + Captured(s, ms[1..])
  }

  /** The captured spans of the whole suggestion, in discovery order. */
  function Spans(s: string): (r: seq<string>)
    ensures forall k :: 0 <= k < |r| ==> QuoteFree(r[k])
  {
    var ms := Scan(s, 0);
    ScanSound(s, 0);
    CapturedQuoteFree(s, ms);
    Captured(s, ms)
  }

  lemma {:induction false} CapturedQuoteFree(s: string, ms: seq<Match>)
    requires AllMatch(s, 0, ms)
    ensures Fits(s, ms)
    ensures forall k :: 0 <= k < |Captured(s, ms)| ==> QuoteFree(Captured(s, ms)[k])
    decreases |ms|
  {
    if ms != [] {
      CapturedQuoteFree(s, ms[1..]);
      assert MatchAt(s, ms[0].start, ms[0].close);
    }
  }

  /** The match-by-match rebuilt command. */
  function Wrap(span: string): string {
    Lead + span + "\""
  }

  function Wrapped(spans: seq<string>): (r: seq<string>)
    ensures |r| == |spans|
    decreases |spans|
  {
    if spans == [] then [] else [Wrap(spans[0])] + Wrapped(spans[1..])
  }

  /** The rebuilt commands joined by single spaces. */
  function Render(spans: seq<string>): string {
    Join(Wrapped(spans), " ")
  }

  /** `cleanCommitMessage`. */
  function Clean(s: string): string {
    var spans := Spans(s);
    if |spans| > 0 then Render(spans) else Trim(s)
  }

  /** The pattern does not match anywhere in `s`. */
  ghost predicate NoMatch(s: string) {
    forall i: nat, j: nat :: !MatchAt(s, i, j)
  }

  /** There are no spans exactly when the pattern matches nowhere. */
  lemma {:induction false} NoSpansIff(s: string)
    ensures Spans(s) == [] <==> NoMatch(s)
  {
    var r := Scan(s, 0);
    if !NoMatch(s) {
      var i: nat, j: nat :| MatchAt(s, i, j);
      ScanLeftmost(s, 0, i, j);
    }
    if r != [] {
      ScanSound(s, 0);
      assert MatchAt(s, r[0].start, r[0].close);
    }
  }

  // ---- Shifting a scan past a prefix ----

  function Shift(ms: seq<Match>, d: nat): (r: seq<Match>)
    ensures |r| == |ms|
    decreases |ms|
  {
    if ms == [] then [] else [Match(ms[0].start + d, ms[0].close + d)] + Shift(ms[1..], d)
  }

  lemma {:induction false} FindQuoteShift(a: string, b: string, k: nat)
    requires k <= |b|
    ensures FindQuote(b, k).Some? ==> FindQuote(a + b, |a| + k) == Some(|a| + FindQuote(b, k).value)
    ensures FindQuote(b, k).None? ==> FindQuote(a + b, |a| + k).None?
  {
    var s := a + b;
    assert s[|a| + k..] == b[k..];
    FindQuoteSound(b, k);
    FindQuoteSound(s, |a| + k);
    var r := FindQuote(b, k);
    if r.Some? {
      assert s[|a| + k..|a| + r.value] == b[k..r.value];
      FindQuoteFirst(s, |a| + k, |a| + r.value);
    }
  }

  lemma {:induction false} LeadAtShift(a: string, b: string, i: nat)
    requires i <= |b|
    ensures LeadAt(a + b, |a| + i) == LeadAt(b, i)
  {
    if i + |Lead| <= |b| {
      assert (a + b)[|a| + i..|a| + i + |Lead|] == b[i..i + |Lead|];
    }
  }

  lemma {:induction false} ShiftCons(m: Match, t: seq<Match>, d: nat)
    ensures Shift([m] + t, d) == [Match(m.start + d, m.close + d)] + Shift(t, d)
  {
    assert ([m] + t)[1..] == t;
  }

  /** Text in front of `b` does not change what the scanner finds in `b`. */
  lemma {:induction false} ScanShift(a: string, b: string, i: nat)
    requires i <= |b|
    ensures Scan(a + b, |a| + i) == Shift(Scan(b, i), |a|)
    decreases |b| - i, 1
  {
    if i + |Lead| <= |b| {
      if LeadAt(b, i) && FindQuote(b, i + |Lead|).Some? {
        ScanShiftTakes(a, b, i, FindQuote(b, i + |Lead|).value);
      } else {
        ScanShiftSkips(a, b, i);
      }
    }
  }

  lemma {:induction false} ScanShiftTakes(a: string, b: string, i: nat, j: nat)
    requires LeadAt(b, i) && FindQuote(b, i + |Lead|) == Some(j)
    ensures Scan(a + b, |a| + i) == Shift(Scan(b, i), |a|)
    decreases |b| - i, 0
  {
    TakeBounds(b, i, j);
    ScanShift(a, b, j + 1);
    ShiftTakes(a, b, i, j);
  }

  lemma {:induction false} TakeBounds(b: string, i: nat, j: nat)
    requires LeadAt(b, i) && FindQuote(b, i + |Lead|) == Some(j)
    ensures i < j + 1 <= |b|
  {
  }

  lemma {:induction false} ShiftTakes(a: string, b: string, i: nat, j: nat)
    requires LeadAt(b, i) && FindQuote(b, i + |Lead|) == Some(j)
    requires Scan(a + b, |a| + (j + 1)) == Shift(Scan(b, j + 1), |a|)
    ensures Scan(a + b, |a| + i) == Shift(Scan(b, i), |a|)
  {
    ScanTakes(b, i, j);
    ScanTakesShifted(a, b, i, j);
    ShiftCons(Match(i, j), Scan(b, j + 1), |a|);
  }

  lemma {:induction false} ScanTakesShifted(a: string, b: string, i: nat, j: nat)
    requires LeadAt(b, i) && FindQuote(b, i + |Lead|) == Some(j)
    ensures Scan(a + b, |a| + i) == [Match(|a| + i, |a| + j)] + Scan(a + b, |a| + (j + 1))
  {
    TakeShifted(a, b, i, j);
    ScanTakes(a + b, |a| + i, |a| + j);
  }

  lemma {:induction false} TakeShifted(a: string, b: string, i: nat, j: nat)
    requires LeadAt(b, i) && FindQuote(b, i + |Lead|) == Some(j)
    ensures LeadAt(a + b, |a| + i) && FindQuote(a + b, |a| + i + |Lead|) == Some(|a| + j)
  {
    LeadAtShift(a, b, i);
    FindQuoteShift(a, b, i + |Lead|);
    assert |a| + i + |Lead| == |a| + (i + |Lead|);
  }

  lemma {:induction false} ScanShiftSkips(a: string, b: string, i: nat)
    requires i + |Lead| <= |b|
    requires !LeadAt(b, i) || FindQuote(b, i + |Lead|).None?
    ensures Scan(a + b, |a| + i) == Shift(Scan(b, i), |a|)
    decreases |b| - i, 0
  {
    ScanShift(a, b, i + 1);
    ScanSkipsShifted(a, b, i);
    ScanSkips(b, i);
  }

  lemma {:induction false} ScanSkipsShifted(a: string, b: string, i: nat)
    requires i + |Lead| <= |b|
    requires !LeadAt(b, i) || FindQuote(b, i + |Lead|).None?
    ensures Scan(a + b, |a| + i) == Scan(a + b, |a| + (i + 1))
  {
    NoTakeShifted(a, b, i);
    ScanSkips(a + b, |a| + i);
  }

  lemma {:induction false} NoTakeShifted(a: string, b: string, i: nat)
    requires i + |Lead| <= |b|
    requires !LeadAt(b, i) || FindQuote(b, i + |Lead|).None?
    ensures !LeadAt(a + b, |a| + i) || FindQuote(a + b, |a| + i + |Lead|).None?
  {
    LeadAtShift(a, b, i);
    if LeadAt(b, i) {
      FindQuoteShift(a, b, i + |Lead|);
      assert |a| + i + |Lead| == |a| + (i + |Lead|);
    }
  }

  lemma {:induction false} CapturedShift(a: string, b: string, ms: seq<Match>)
    requires Fits(b, ms)
    ensures Fits(a + b, Shift(ms, |a|))
    ensures Captured(a + b, Shift(ms, |a|)) == Captured(b, ms)
    decreases |ms|
  {
    if ms != [] {
      CapturedShift(a, b, ms[1..]);
      var m := ms[0];
      assert (a + b)[|a| + m.start + |Lead|..|a| + m.close] == b[m.start + |Lead|..m.close];
    }
  }

  // ---- Round trip: rescanning the rebuilt command ----

  /** A rebuilt segment is found again, with its span, and scanning resumes
      right after its closing quote. */
  lemma {:induction false} ScanWrapped(t: string, rest: string)
    requires QuoteFree(t)
    ensures var s := Wrap(t) + rest;
      Scan(s, 0) == [Match(0, |Lead| + |t|)] + Scan(s, |Wrap(t)|)
  {
    var s := Wrap(t) + rest;
    assert s[..|Lead|] == Lead;
    assert s[|Lead|..|Lead| + |t|] == t;
    FindQuoteFirst(s, |Lead|, |Lead| + |t|);
    ScanTakes(s, 0, |Lead| + |t|);
  }

  /** A position that does not hold the Lead's first letter is skipped. */
  lemma {:induction false} ScanSkipsNonG(s: string, i: nat)
    requires i < |s| && s[i] != 'g'
    ensures Scan(s, i) == Scan(s, i + 1)
  {
    if i + |Lead| <= |s| {
      assert s[i..i + |Lead|][0] == s[i];
      ScanSkips(s, i);
    }
  }

  /** The spans of a single rebuilt segment. */
  lemma {:induction false} SpansOfWrap(t: string)
    requires QuoteFree(t)
    ensures Spans(Wrap(t)) == [t]
  {
    var w := Wrap(t);
    ScanWrapped(t, "");
    assert w + "" == w;
    assert Scan(w, |w|) == [];
    assert w[|Lead|..|Lead| + |t|] == t;
  }

  /** The scan of a rebuilt segment followed by a space and more text. */
  lemma {:induction false} ScanWrapSpace(t: string, rest: string)
    requires QuoteFree(t)
    ensures Scan(Wrap(t) + " " + rest, 0) == [Match(0, |Lead| + |t|)] + Shift(Scan(rest, 0), |Wrap(t)| + 1)
  {
    var w := Wrap(t);
    var s := w + (" " + rest);
    assert s == Wrap(t) + " " + rest;
    ScanWrapped(t, " " + rest);
    ScanSkipsNonG(s, |w|);
    assert s == (w + " ") + rest;
    ScanShift(w + " ", rest, 0);
  }

  /** The spans of a rebuilt segment followed by a space and more text. */
  lemma {:induction false} SpansOfWrapSpace(t: string, rest: string)
    requires QuoteFree(t)
    ensures Spans(Wrap(t) + " " + rest) == [t] + Spans(rest)
  {
    var w := Wrap(t);
    var s := Wrap(t) + " " + rest;
    ScanWrapSpace(t, rest);
    var ms := Scan(rest, 0);
    ScanSound(rest, 0);
    CapturedQuoteFree(rest, ms);
    assert s == (w + " ") + rest;
    CapturedShift(w + " ", rest, ms);
    var all := [Match(0, |Lead| + |t|)] + Shift(ms, |w| + 1);
    assert all[1..] == Shift(ms, |w| + 1);
    assert s[|Lead|..|Lead| + |t|] == t;
  }

  /** Rescanning rendered spans gives exactly those spans back (when none
      contains a quote). */
  lemma {:induction false} SpansOfRender(spans: seq<string>)
    requires |spans| > 0
    requires forall k :: 0 <= k < |spans| ==> QuoteFree(spans[k])
    ensures Spans(Render(spans)) == spans
    decreases |spans|
  {
    assert Wrapped(spans)[0] == Wrap(spans[0]);
    if |spans| == 1 {
      SpansOfWrap(spans[0]);
    } else {
      var rest := spans[1..];
      assert Wrapped(spans)[1..] == Wrapped(rest);
      SpansOfRender(rest);
      SpansOfWrapSpace(spans[0], Render(rest));
      assert [spans[0]] + rest == spans;
    }
  }

  /** A match inside a slice is a match of the whole string. */
  lemma {:induction false} MatchInSlice(s: string, a: nat, b: nat, i: nat, j: nat)
    requires a <= b <= |s| && MatchAt(s[a..b], i, j)
    ensures MatchAt(s, a + i, a + j)
  {
    SliceOfSlice(s, a, b, i, i + |Lead|);
    SliceOfSlice(s, a, b, i + |Lead|, j);
  }

  /** Cleaning keeps the spans: rescanning the cleaned text finds exactly the
      spans of the original. */
  lemma {:induction false} CleanKeepsSpans(s: string)
    ensures Spans(Clean(s)) == Spans(s)
  {
    var spans := Spans(s);
    if |spans| > 0 {
      SpansOfRender(spans);
    } else {
      NoSpansIff(s);
      var a, b := TrimSlice(s);
      forall i: nat, j: nat ensures !MatchAt(Trim(s), i, j) {
        if MatchAt(Trim(s), i, j) {
          MatchInSlice(s, a, b, i, j);
        }
      }
      NoSpansIff(Trim(s));
    }
  }

  /** Cleaning twice is cleaning once. */
  lemma {:induction false} CleanIdempotent(s: string)
    ensures Clean(Clean(s)) == Clean(s)
  {
    CleanKeepsSpans(s);
    if |Spans(s)| == 0 {
      TrimIdempotent(s);
    }
  }

  /** With no match, cleaning only strips whitespace from both ends: the
      result is a slice of the input with whitespace, and nothing else,
      dropped around it. */
  lemma {:induction false} CleanPassthrough(s: string) returns (a: nat, b: nat)
    requires NoMatch(s)
    ensures a <= b <= |s| && Clean(s) == s[a..b]
    ensures AllWhitespace(s[..a]) && AllWhitespace(s[b..])
    ensures Trimmed(Clean(s))
  {
    NoSpansIff(s);
    a, b := TrimSlice(s);
  }

  /** With at least one match, the cleaned text starts with the first
      occurrence re-wrapped, and rescanning it yields the spans in order. */
  lemma {:induction false} CleanMatched(s: string)
    requires !NoMatch(s)
    ensures Spans(s) != [] && StartsWith(Clean(s), Wrap(Spans(s)[0]))
    ensures Spans(Clean(s)) == Spans(s)
  {
    NoSpansIff(s);
    CleanKeepsSpans(s);
    JoinStartsWithFirst(Wrapped(Spans(s)), " ");
  }

  // ---- Worked examples ----

  /** Scanning finds nothing where no position holds the Lead's first letter. */
  lemma {:induction false} ScanWithoutG(s: string, i: nat)
    requires i <= |s|
    requires forall p :: i <= p < |s| ==> s[p] != 'g'
    ensures Scan(s, i) == []
    decreases |s| - i
  {
    if i < |s| {
      ScanSkipsNonG(s, i);
      ScanWithoutG(s, i + 1);
    }
  }

  lemma {:induction false} CapturedOne(s: string, m: Match)
    requires m.start + |Lead| <= m.close <= |s|
    ensures Captured(s, [m]) == [s[m.start + |Lead|..m.close]]
  {
  }

  /** A rebuilt segment followed by text free of the Lead's first letter
      is the only thing the scanner finds. */
  lemma {:induction false} ScanWrapThenPlain(t: string, rest: string)
    requires QuoteFree(t)
    requires forall p :: 0 <= p < |rest| ==> rest[p] != 'g'
    ensures Scan(Wrap(t) + rest, 0) == [Match(0, |Lead| + |t|)]
  {
    var w := Wrap(t);
    var s := w + rest;
    ScanWrapped(t, rest);
    forall p | |w| <= p < |s|
      ensures s[p] != 'g'
    {
      assert s[p] == rest[p - |w|];
    }
    ScanWithoutG(s, |w|);
  }

  /** The spans of a rebuilt segment followed by text free of the Lead's
      first letter. */
  lemma {:induction false} SpansOfWrapThenPlain(t: string, rest: string)
    requires QuoteFree(t)
    requires forall p :: 0 <= p < |rest| ==> rest[p] != 'g'
    ensures Spans(Wrap(t) + rest) == [t]
  {
    var s := Wrap(t) + rest;
    ScanWrapThenPlain(t, rest);
    CapturedOne(s, Match(0, |Lead| + |t|));
    assert s[|Lead|..|Lead| + |t|] == t;
  }

  /** Text with a single span is rebuilt as that one segment. */
  lemma {:induction false} CleanSingle(s: string, t: string)
    requires Spans(s) == [t]
    ensures Clean(s) == Wrap(t)
  {
    assert Wrapped([t]) == [Wrap(t)];
  }

  lemma {:induction false} BareFlagParts(s: string, rest: string)
    requires s == "git commit -m \"fix bug\" -m \"details here\""
    requires rest == " -m \"details here\""
    ensures s == Wrap("fix bug") + rest
  {
  }

  lemma {:induction false} BareFlagTail(rest: string)
    requires rest == " -m \"details here\""
    ensures forall p :: 0 <= p < |rest| ==> rest[p] != 'g'
  {
  }

  /** A trailing bare `-m "..."` is not preceded by the Lead and is dropped. */
  lemma {:induction false} CleanDropsBareMessageFlag(s: string)
    requires s == "git commit -m \"fix bug\" -m \"details here\""
    ensures Clean(s) == "git commit -m \"fix bug\""
  {
    var rest := " -m \"details here\"";
    BareFlagTail(rest);
    assert QuoteFree("fix bug");
    BareFlagParts(s, rest);
    SpansOfWrapThenPlain("fix bug", rest);
    CleanSingle(s, "fix bug");
  }

  /** Surrounding whitespace is not part of the rebuilt command. */
  lemma {:induction false} CleanSurroundingSpace(s: string)
    requires s == "  git commit -m \"a\"  "
    ensures Clean(s) == "git commit -m \"a\""
  {
    assert s == "  " + (Wrap("a") + "  ");
    SpacedSpans();
    CleanSingle(s, "a");
  }

  lemma {:induction false} SpacedSpans()
    ensures Spans("  " + (Wrap("a") + "  ")) == ["a"]
  {
    var w := Wrap("a") + "  ";
    var s := "  " + w;
    assert QuoteFree("a");
    ScanWrapThenPlain("a", "  ");
    ScanShift("  ", w, 0);
    ScanSkipsNonG(s, 0);
    ScanSkipsNonG(s, 1);
    CapturedOne(s, Match(2, 18));
    assert s[17..18] == "a";
  }

  /** Text in which the pattern matches nowhere and which has no
      whitespace at either end comes back unchanged. */
  lemma {:induction false} CleanPlainText(s: string)
    requires NoMatch(s) && Trimmed(s)
    ensures Clean(s) == s
  {
    NoSpansIff(s);
    TrimOfTrimmed(s);
  }
}
