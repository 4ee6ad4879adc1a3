/**
 * The two pure pieces of `fetchCommitSuggestion`: the prompt text sent to
 * the model (the summary with quotes and line breaks removed, after
 * `Changes made `), and the choice of the suggestion in the decoded reply,
 * `candidates[0].content.parts[0].text`.
 */
module Suggestion {
  import opened Wrappers
  import opened Text

  /** The characters the global replacement `/['\n\r"]/g` removes. */
  predicate IsStripped(c: char) {
    c == '\'' || c == '"' || c == '\n' || c == '\r'
  }

  /** Every character of `s` survives sanitising. */
  predicate Unstripped(s: string) {
    forall k :: 0 <= k < |s| ==> !IsStripped(s[k])
  }

  /** `replace(/['\n\r"]/g, '')`: the stripped characters are removed. */
  function Sanitize(s: string): (r: string)
    ensures |r| <= |s|
    decreases |s|
  {
    if s == [] then []
    else (if IsStripped(s[0]) then [] else [s[0]]) + Sanitize(s[1..])
  }

  const Preamble: string := "Changes made "

  /** The text of the user part of the request: the preamble, then the
      summary with no quote or line break left and every other character
      kept as often as it occurs. */
  function PromptText(summary: string): (r: string)
    ensures StartsWith(r, Preamble)
    ensures Unstripped(r[|Preamble|..])
    ensures forall c :: !IsStripped(c) ==> multiset(r[|Preamble|..])[c] == multiset(summary)[c]
  {
    SanitizeIsUnstripped(summary);
    assert forall c :: !IsStripped(c) ==> multiset(Sanitize(summary))[c] == multiset(summary)[c] by {
      forall c | !IsStripped(c) ensures multiset(Sanitize(summary))[c] == multiset(summary)[c] {
        SanitizeCounts(summary, c);
      }
    }
    var r := Preamble + Sanitize(summary);
    assert r[|Preamble|..] == Sanitize(summary);
    r
  }

  /** Sanitising removes every stripped character. */
  lemma {:induction false} SanitizeIsUnstripped(s: string)
    ensures Unstripped(Sanitize(s))
    decreases |s|
  {
    if s != [] {
      SanitizeIsUnstripped(s[1..]);
      var h := if IsStripped(s[0]) then [] else [s[0]];
      var r := Sanitize(s);
      forall k | 0 <= k < |r| ensures !IsStripped(r[k]) {
        if k >= |h| { assert r[k] == Sanitize(s[1..])[k - |h|]; }
      }
    }
  }

  /** Sanitising works character by character: it distributes over
      concatenation, so what survives keeps its order. */
  lemma {:induction false} SanitizeAppend(a: string, b: string)
    ensures Sanitize(a + b) == Sanitize(a) + Sanitize(b)
    decreases |a|
  {
    if a == [] {
      assert a + b == b;
    } else {
      assert (a + b)[1..] == a[1..] + b;
      SanitizeAppend(a[1..], b);
      assert (a + b)[0] == a[0];
    }
  }

  /** Text without stripped characters is left alone. */
  lemma {:induction false} SanitizeOfUnstripped(s: string)
    requires Unstripped(s)
    ensures Sanitize(s) == s
    decreases |s|
  {
    if s != [] {
      SanitizeOfUnstripped(s[1..]);
      assert [s[0]] + s[1..] == s;
    }
  }

  /** Sanitising twice is sanitising once. */
  lemma {:induction false} SanitizeIdempotent(s: string)
    ensures Sanitize(Sanitize(s)) == Sanitize(s)
  {
    SanitizeIsUnstripped(s);
    SanitizeOfUnstripped(Sanitize(s));
  }

  /** Every other character keeps its number of occurrences, and no
      stripped character is left. */
  lemma {:induction false} SanitizeCounts(s: string, c: char)
    ensures multiset(Sanitize(s))[c] == if IsStripped(c) then 0 else multiset(s)[c]
    decreases |s|
  {
    if s != [] {
      SanitizeCounts(s[1..], c);
      assert s == [s[0]] + s[1..];
      var h := if IsStripped(s[0]) then [] else [s[0]];
      assert multiset(Sanitize(s)) == multiset(h) + multiset(Sanitize(s[1..]));
    }
  }

  /** Quotes and line breaks disappear from the prompt; nothing else does. */
  lemma {:induction false} PromptTextExample(summary: string)
    requires summary == "a \"b\"\n"
    ensures PromptText(summary) == "Changes made a b"
  {
    SanitizeLiteral(summary);
    assert PromptText(summary) == Preamble + Sanitize(summary);
  }

  lemma {:induction false} SanitizeLiteral(summary: string)
    requires summary == "a \"b\"\n"
    ensures Sanitize(summary) == "a b"
  {
    assert Sanitize("a \"b\"\n") == "a b";
  }

  // ---- The reply ----

  /** The decoded reply as far as the extension reads it; each field the
      code dereferences may be absent. */
  datatype Part = Part(text: Option<string>)
  datatype Content = Content(parts: Option<seq<Part>>)
  datatype Candidate = Candidate(content: Option<Content>)
  datatype Response = Response(candidates: Option<seq<Candidate>>)

  /** What the shape check at the end of the request comes to: the text,
      the `else` branch, or a TypeError from dereferencing a missing value
      (caught further out). */
  datatype Selection = Selected(text: string) | InvalidShape | TypeError

  /** The reply has a first candidate with content and a first part. */
  predicate HasFirstPart(data: Option<Response>) {
    data.Some? && data.value.candidates.Some?
    && |data.value.candidates.value| > 0
    && data.value.candidates.value[0].content.Some?
    && data.value.candidates.value[0].content.value.parts.Some?
    && |data.value.candidates.value[0].content.value.parts.value| > 0
  }

  /** The reply holds the text `t` at `candidates[0].content.parts[0].text`. */
  predicate TextAt(data: Option<Response>, t: string) {
    HasFirstPart(data)
    && data.value.candidates.value[0].content.value.parts.value[0].text == Some(t)
  }

  /** `data && data.candidates && data.candidates[0].content.parts[0].text`
      evaluated on a decoded reply (`None` for `null`). The text is
      selected exactly when it is present and not empty; a TypeError comes
      exactly from a present `candidates` whose first part is missing. */
  function Select(data: Option<Response>): (r: Selection)
    ensures r.Selected? ==> TextAt(data, r.text) && r.text != ""
    ensures forall t :: TextAt(data, t) && t != "" ==> r == Selected(t)
    ensures r == TypeError <==> data.Some? && data.value.candidates.Some? && !HasFirstPart(data)
  {
    if data.None? || data.value.candidates.None? then InvalidShape
    else
      var cs := data.value.candidates.value;
      if |cs| == 0 || cs[0].content.None? || cs[0].content.value.parts.None? then TypeError
      else
        var ps := cs[0].content.value.parts.value;
        if |ps| == 0 then TypeError
        else if ps[0].text.None? || ps[0].text.value == "" then InvalidShape
        else Selected(ps[0].text.value)
  }

  /** The body of the reply: a decoding failure, or the decoded value. */
  datatype Body = Undecodable | Decoded(data: Option<Response>)

  /** `fetchCommitSuggestion` after the request: a reply that is not ok
      raises an error, a body that does not decode raises one, and every
      raised error as well as the `else` branch yield nothing. */
  function FetchSuggestion(ok: bool, body: Body): (r: Option<string>)
    ensures r.Some? <==> ok && body.Decoded? && exists t :: TextAt(body.data, t) && t != ""
    ensures r.Some? ==> TextAt(body.data, r.value) && r.value != ""
  {
    if !ok || body.Undecodable? then None
    else
      match Select(body.data)
      case Selected(t) => Some(t)
      case _ =>
        None
  }
}
