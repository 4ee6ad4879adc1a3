/**
 * String helpers with the behaviour of the JavaScript built-ins the extension
 * uses: `trim`, `join`, `split` on one character, `startsWith` and the
 * decimal rendering of a non-negative integer in a template literal.
 */
module Text {

  /** The characters `String.prototype.trim` removes: ECMAScript WhiteSpace
      (TAB, VT, FF, ZWNBSP and the Unicode space separators) and
      LineTerminator (LF, CR, LS, PS). */
  predicate IsWhitespace(c: char) {
    c == ' ' || c == '\t' || c == '\n' || c == '\r' || c == '\U{B}' || c == '\U{C}'
    || c == '\U{A0}' || c == '\U{1680}' || ('\U{2000}' <= c <= '\U{200A}')
    || c == '\U{2028}' || c == '\U{2029}' || c == '\U{202F}' || c == '\U{205F}'
    || c == '\U{3000}' || c == '\U{FEFF}'
  }

  predicate AllWhitespace(s: string) {
    forall k :: 0 <= k < |s| ==> IsWhitespace(s[k])
  }

  /** Neither end of `s` is whitespace. */
  predicate Trimmed(s: string) {
    s == [] || (!IsWhitespace(s[0]) && !IsWhitespace(s[|s| - 1]))
  }

  /** Drops the leading whitespace. */
  function TrimStart(s: string): string
    decreases |s|
  {
    if s != [] && IsWhitespace(s[0]) then TrimStart(s[1..]) else s
  }

  /** Drops the trailing whitespace. */
  function TrimEnd(s: string): string
    decreases |s|
  {
    if s != [] && IsWhitespace(s[|s| - 1]) then TrimEnd(s[..|s| - 1]) else s
  }

  /** TrimStart keeps a suffix of `s`, what it drops is all whitespace, and
      what it keeps does not start with whitespace. */
  lemma {:induction false} TrimStartSound(s: string)
    ensures var r := TrimStart(s);
      |r| <= |s| && r == s[|s| - |r|..] && AllWhitespace(s[..|s| - |r|])
      && (r != [] ==> !IsWhitespace(r[0]))
    decreases |s|
  {
    if s != [] && IsWhitespace(s[0]) {
      TrimStartSound(s[1..]);
      var r := TrimStart(s);
      var n := |s| - |r|;
      assert s[1..][n - 1..] == s[n..];
      forall k | 0 <= k < n ensures IsWhitespace(s[..n][k]) {
        if k > 0 { assert s[..n][k] == s[1..][..n - 1][k - 1]; }
      }
    }
  }

  /** TrimEnd keeps a prefix of `s`, what it drops is all whitespace, and
      what it keeps does not end with whitespace. */
  lemma {:induction false} TrimEndSound(s: string)
    ensures var r := TrimEnd(s);
      |r| <= |s| && r == s[..|r|] && AllWhitespace(s[|r|..])
      && (r != [] ==> !IsWhitespace(r[|r| - 1]))
    decreases |s|
  {
    if s != [] && IsWhitespace(s[|s| - 1]) {
      var t := s[..|s| - 1];
      TrimEndSound(t);
      var r := TrimEnd(s);
      assert t[..|r|] == s[..|r|];
      forall k | |r| <= k < |s| ensures IsWhitespace(s[k]) {
        if k < |s| - 1 { assert s[k] == t[|r|..][k - |r|]; }
      }
      assert forall k :: 0 <= k < |s| - |r| ==> s[|r|..][k] == s[|r| + k];
    }
  }

  /** `String.prototype.trim`. */
  function Trim(s: string): string {
    TrimEnd(TrimStart(s))
  }

  /** Trim keeps one contiguous slice `s[a..b]`, drops only whitespace on
      either side of it, and leaves no whitespace at its ends. */
  lemma {:induction false} TrimSlice(s: string) returns (a: nat, b: nat)
    ensures a <= b <= |s| && Trim(s) == s[a..b]
    ensures AllWhitespace(s[..a]) && AllWhitespace(s[b..])
    ensures Trimmed(Trim(s))
  {
    var t := TrimStart(s);
    var u := TrimEnd(t);
    TrimStartSound(s);
    TrimEndSound(t);
    a := |s| - |t|;
    b := a + |u|;
    SliceOfSuffix(s, a, |u|);
    assert t[|u|..] == s[b..];
    if u != [] && |t| > |u| {
      assert t[0] == u[0];
    }
  }

  lemma {:induction false} SliceOfSlice(s: string, a: nat, b: nat, x: nat, y: nat)
    requires a <= b <= |s| && x <= y <= b - a
    ensures s[a..b][x..y] == s[a + x..a + y]
  {
    forall k | 0 <= k < y - x ensures s[a..b][x..y][k] == s[a + x..a + y][k] {
    }
  }

  lemma {:induction false} SliceOfSuffix(s: string, a: nat, n: nat)
    requires a + n <= |s|
    ensures s[a..][..n] == s[a..a + n]
  {
  }

  /** A string without whitespace at its ends is left alone by Trim. */
  lemma {:induction false} TrimOfTrimmed(s: string)
    requires Trimmed(s)
    ensures Trim(s) == s
  {
    assert TrimStart(s) == s;
    assert TrimEnd(s) == s;
  }

  /** Trim is idempotent. */
  lemma {:induction false} TrimIdempotent(s: string)
    ensures Trim(Trim(s)) == Trim(s)
  {
    var _, _ := TrimSlice(s);
    TrimOfTrimmed(Trim(s));
  }

  /** Trim yields the empty string exactly when the input is all whitespace. */
  lemma {:induction false} TrimEmptyIff(s: string)
    ensures Trim(s) == [] <==> AllWhitespace(s)
  {
    var a, b := TrimSlice(s);
    if Trim(s) == [] {
      assert a == b;
      forall k | 0 <= k < |s| ensures IsWhitespace(s[k]) {
        if k < a { assert s[..a][k] == s[k]; } else { assert s[b..][k - b] == s[k]; }
      }
    }
  }

  predicate StartsWith(s: string, p: string) {
    |p| <= |s| && s[..|p|] == p
  }

  /** `Array.prototype.join` on strings. */
  function Join(parts: seq<string>, sep: string): string
    decreases |parts|
  {
    if |parts| == 0 then ""
    else if |parts| == 1 then parts[0]
    else parts[0] + sep + Join(parts[1..], sep)
  }

  /** The joined string starts with the first part. */
  lemma {:induction false} JoinStartsWithFirst(parts: seq<string>, sep: string)
    requires |parts| > 0
    ensures StartsWith(Join(parts, sep), parts[0])
  {
  }

  predicate Lacks(s: string, c: char) {
    forall k :: 0 <= k < |s| ==> s[k] != c
  }

  /** A concatenation lacks a character when both sides do. */
  lemma {:induction false} LacksAppend(a: string, b: string, c: char)
    requires Lacks(a, c) && Lacks(b, c)
    ensures Lacks(a + b, c)
  {
    forall k | 0 <= k < |a + b| ensures (a + b)[k] != c {
      if k >= |a| { assert (a + b)[k] == b[k - |a|]; }
    }
  }

  /** `String.prototype.split` with a one-character separator: always at
      least one piece. */
  function Split(s: string, c: char): (r: seq<string>)
    ensures |r| >= 1
    decreases |s|
  {
    if s == [] then [""]
    else
      var rest := Split(s[1..], c);
      if s[0] == c then [""] + rest
      else [[s[0]] + rest[0]] + rest[1..]
  }

  /** No piece of Split contains the separator. */
  lemma {:induction false} SplitPiecesLack(s: string, c: char)
    ensures forall k :: 0 <= k < |Split(s, c)| ==> Lacks(Split(s, c)[k], c)
    decreases |s|
  {
    if s != [] {
      SplitPiecesLack(s[1..], c);
      var rest := Split(s[1..], c);
      if s[0] != c {
        assert Lacks(rest[0], c);
        var r := [[s[0]] + rest[0]] + rest[1..];
        forall k | 0 <= k < |r| ensures Lacks(r[k], c) {
          if k > 0 { assert r[k] == rest[k]; }
        }
      }
    }
  }

  /** Joining the pieces with the separator gives the original string back. */
  lemma {:induction false} JoinSplit(s: string, c: char)
    ensures Join(Split(s, c), [c]) == s
    decreases |s|
  {
    if s != [] {
      var rest := Split(s[1..], c);
      JoinSplit(s[1..], c);
      if s[0] == c {
        assert Split(s, c) == [""] + rest;
        assert ([""] + rest)[1..] == rest;
      } else {
        var r := [[s[0]] + rest[0]] + rest[1..];
        assert Split(s, c) == r;
        if |rest| > 1 {
          assert r[1..] == rest[1..];
          assert Join(r, [c]) == [s[0]] + (rest[0] + [c] + Join(rest[1..], [c]));
        }
      }
    }
  }

  /** A string splits at its first separator. */
  lemma {:induction false} SplitAtSeparator(a: string, c: char, b: string)
    requires Lacks(a, c)
    ensures Split(a + [c] + b, c) == [a] + Split(b, c)
    decreases |a|
  {
    var s := a + [c] + b;
    if a == [] {
      assert s[1..] == b;
    } else {
      assert s[1..] == a[1..] + [c] + b;
      SplitAtSeparator(a[1..], c, b);
      assert [s[0]] + a[1..] == a;
    }
  }

  /** Splitting text joined at a separator gives the pieces of either side. */
  lemma {:induction false} SplitConcat(a: string, c: char, b: string)
    ensures Split(a + [c] + b, c) == Split(a, c) + Split(b, c)
    decreases |a|
  {
    if a == [] {
      assert a + [c] + b == [c] + b;
      SplitCons(c, b, c);
    } else {
      SplitConcat(a[1..], c, b);
      SplitConcatStep(a, c, b);
    }
  }

  lemma {:induction false} SplitConcatStep(a: string, c: char, b: string)
    requires a != []
    requires Split(a[1..] + [c] + b, c) == Split(a[1..], c) + Split(b, c)
    ensures Split(a + [c] + b, c) == Split(a, c) + Split(b, c)
  {
    var t := a[1..] + [c] + b;
    assert a + [c] + b == [a[0]] + t;
    assert a == [a[0]] + a[1..];
    SplitCons(a[0], t, c);
    SplitCons(a[0], a[1..], c);
    PiecesAppend(a[0] == c, [a[0]], Split(a[1..], c), Split(b, c));
  }

  /** The list algebra behind SplitConcatStep. */
  lemma {:induction false} PiecesAppend(sep: bool, x: string, ra: seq<string>, rb: seq<string>)
    requires |ra| >= 1
    ensures (if sep then [""] + (ra + rb) else [x + (ra + rb)[0]] + (ra + rb)[1..])
      == (if sep then [""] + ra else [x + ra[0]] + ra[1..]) + rb
  {
    if !sep {
      assert (ra + rb)[0] == ra[0];
      assert (ra + rb)[1..] == ra[1..] + rb;
    }
  }

  /** Splitting a string by its first character. */
  lemma {:induction false} SplitCons(x: char, t: string, c: char)
    ensures Split([x] + t, c) == (if x == c then [""] + Split(t, c)
      else [[x] + Split(t, c)[0]] + Split(t, c)[1..])
  {
    assert ([x] + t)[1..] == t;
  }

  /** A string without the separator is one piece. */
  lemma {:induction false} SplitWithoutSeparator(a: string, c: char)
    requires Lacks(a, c)
    ensures Split(a, c) == [a]
    decreases |a|
  {
    if a != [] {
      SplitWithoutSeparator(a[1..], c);
      assert [a[0]] + a[1..] == a;
    }
  }

  /** Split is the only way of cutting a string into separator-free pieces
      whose join is the string. */
  lemma {:induction false} SplitUnique(parts: seq<string>, c: char)
    requires |parts| >= 1
    requires forall k :: 0 <= k < |parts| ==> Lacks(parts[k], c)
    ensures Split(Join(parts, [c]), c) == parts
    decreases |parts|
  {
    if |parts| == 1 {
      SplitWithoutSeparator(parts[0], c);
    } else {
      SplitUnique(parts[1..], c);
      SplitJoinStep(parts, c);
    }
  }

  lemma {:induction false} SplitJoinStep(parts: seq<string>, c: char)
    requires |parts| >= 2 && Lacks(parts[0], c)
    requires Split(Join(parts[1..], [c]), c) == parts[1..]
    ensures Split(Join(parts, [c]), c) == parts
  {
    assert Join(parts, [c]) == parts[0] + [c] + Join(parts[1..], [c]);
    SplitAtSeparator(parts[0], c, Join(parts[1..], [c]));
    assert [parts[0]] + parts[1..] == parts;
  }

  function DigitChar(d: nat): char
    requires d < 10
  {
    ('0' as int + d) as char
  }

  predicate IsDigit(c: char) {
    '0' <= c <= '9'
  }

  /** Decimal rendering of a number, as a template literal shows it. */
  function NatToString(n: nat): (r: string)
    ensures |r| >= 1
    ensures forall k :: 0 <= k < |r| ==> IsDigit(r[k])
    ensures r[0] == '0' ==> n == 0
    decreases n
  {
    if n < 10 then [DigitChar(n)] else NatToString(n / 10) + [DigitChar(n % 10)]
  }

  /** The value of a string of digits. */
  function DecimalValue(s: string): nat
    requires forall k :: 0 <= k < |s| ==> IsDigit(s[k])
    decreases |s|
  {
    if s == [] then 0
    else
      assert IsDigit(s[|s| - 1]);
      DecimalValue(s[..|s| - 1]) * 10 + ((s[|s| - 1] as int - '0' as int) as nat)
  }

  /** Reading the rendered digits back gives the number. */
  lemma {:induction false} NatToStringRoundTrip(n: nat)
    ensures DecimalValue(NatToString(n)) == n
    decreases n
  {
    if n >= 10 {
      NatToStringRoundTrip(n / 10);
      var r := NatToString(n);
      assert r[..|r| - 1] == NatToString(n / 10);
    }
  }
}
