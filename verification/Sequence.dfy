/** extractExpectedSequence of queue/queue.go: the pattern `expected\s+(\d+)` and its number. */
module Sequence {
  import opened Wrappers
  import opened Text
  import opened TextLaws

  const KEYWORD := "expected"

  /** `\s` of Go's regular expressions. */
  predicate IsSpace(c: char) {
    c == ' ' || c == '\t' || c == '\n' || c == '\r' || c == '\U{0c}'
  }

  /** Length of the leading run of spaces. */
  function SpaceRun(s: string): (n: nat)
    ensures n <= |s| && (forall i | 0 <= i < n :: IsSpace(s[i])) && (n < |s| ==> !IsSpace(s[n]))
  {
    if s != "" && IsSpace(s[0]) then 1 + SpaceRun(s[1..]) else 0
  }

  /** Length of the leading run of digits. */
  function DigitRun(s: string): (n: nat)
    ensures n <= |s| && AllDigits(s[..n]) && (n < |s| ==> !IsDigit(s[n]))
  {
    if s != "" && IsDigit(s[0]) then
      var n := DigitRun(s[1..]);
      assert s[..n + 1] == [s[0]] + s[1..][..n];
      n + 1
    else 0
  }

  /** The captured digits of a match at the very start. */
  function MatchHere(s: string): Option<string> {
    if !(KEYWORD <= s) then None
    else
      var spaces := SpaceRun(s[8..]);
      var rest := s[8 + spaces..];
      var digits := DigitRun(rest);
      if spaces == 0 || digits == 0 then None else Some(rest[..digits])
  }

  /** The captured digits of the leftmost match. */
  function FindSubmatch(s: string): Option<string> {
    if MatchHere(s).Some? then MatchHere(s)
    else if s == "" then None
    else FindSubmatch(s[1..])
  }

  function ExtractExpectedSequence(errorMsg: string): (nat, bool) {
    match FindSubmatch(errorMsg)
    case None => (0, false)
    case Some(digits) =>
      match ParseUint64(digits)
      case None => (0, false)
      case Some(v) => (v, true)
  }

  /* ---------- the pattern ---------- */

  /** The pattern matches at p with w spaces and d digits. */
  ghost predicate IsMatch(s: string, p: nat, w: nat, d: nat) {
    && p + 8 + w + d <= |s| && w >= 1 && d >= 1
    && s[p..p + 8] == KEYWORD
    && (forall i | p + 8 <= i < p + 8 + w :: IsSpace(s[i]))
    && AllDigits(s[p + 8 + w..p + 8 + w + d])
  }

  ghost predicate MatchesAt(s: string, p: nat) {
    exists w: nat, d: nat :: IsMatch(s, p, w, d)
  }

  /** A leftmost match that captures as many digits as there are. */
  ghost predicate IsLeftmostLongest(s: string, p: nat, w: nat, d: nat) {
    && IsMatch(s, p, w, d)
    && (forall q: nat | q < p :: !MatchesAt(s, q))
    && (p + 8 + w + d < |s| ==> !IsDigit(s[p + 8 + w + d]))
  }

  function Captured(s: string, p: nat, w: nat, d: nat): string
    requires p + 8 + w + d <= |s|
  {
    s[p + 8 + w..p + 8 + w + d]
  }

  lemma SpaceRunIs(t: string, w: nat)
    requires w < |t| && (forall i | 0 <= i < w :: IsSpace(t[i])) && !IsSpace(t[w])
    ensures SpaceRun(t) == w
  {
  }

  lemma {:induction false} DigitRunCovers(t: string, d: nat)
    requires d <= |t| && AllDigits(t[..d])
    ensures DigitRun(t) >= d
    ensures d == |t| || !IsDigit(t[d]) ==> DigitRun(t) == d
  {
    var n := DigitRun(t);
    assert forall i | 0 <= i < d :: t[..d][i] == t[i];
    assert forall i | 0 <= i < n :: t[..n][i] == t[i];
  }

  lemma MatchHereIsMatch(s: string, w: nat, d: nat)
    requires IsMatch(s, 0, w, d)
    ensures MatchHere(s).Some?
    ensures 8 + w + d == |s| || !IsDigit(s[8 + w + d]) ==> MatchHere(s) == Some(Captured(s, 0, w, d))
  {
    var t, rest := s[8..], s[8 + w..];
    assert KEYWORD <= s && t[w..] == rest && rest[..d] == Captured(s, 0, w, d);
    assert t[w] == Captured(s, 0, w, d)[0];
    assert forall i | 0 <= i < w :: t[i] == s[8 + i];
    SpaceRunIs(t, w);
    DigitRunCovers(rest, d);
    assert 8 + w + d < |s| ==> rest[d] == s[8 + w + d];
  }

  lemma MatchHereGives(s: string)
    requires MatchHere(s).Some?
    ensures var w := SpaceRun(s[8..]);
            var d := DigitRun(s[8 + w..]);
            IsLeftmostLongest(s, 0, w, d) && MatchHere(s).value == Captured(s, 0, w, d)
  {
    var w := SpaceRun(s[8..]);
    var d := DigitRun(s[8 + w..]);
    forall i | 8 <= i < 8 + w
      ensures IsSpace(s[i])
    {
      assert s[8..][i - 8] == s[i];
    }
    assert Captured(s, 0, w, d) == s[8 + w..][..d];
  }

  lemma MatchShift(s: string, p: nat, w: nat, d: nat)
    requires p >= 1 && s != ""
    ensures IsMatch(s, p, w, d) <==> IsMatch(s[1..], p - 1, w, d)
    ensures p + 8 + w + d <= |s| ==> Captured(s, p, w, d) == Captured(s[1..], p - 1, w, d)
  {
    var t := s[1..];
    if p + 8 + w + d <= |s| {
      assert s[p..p + 8] == t[p - 1..p + 7];
      assert Captured(s, p, w, d) == Captured(t, p - 1, w, d);
      assert forall i | p + 8 <= i < p + 8 + w :: s[i] == t[i - 1];
      assert forall i | p + 7 <= i < p + 7 + w :: t[i] == s[i + 1];
    }
  }

  lemma MatchesAtShift(s: string, p: nat)
    requires p >= 1 && s != ""
    ensures MatchesAt(s, p) <==> MatchesAt(s[1..], p - 1)
  {
    if w, d :| IsMatch(s, p, w, d) {
      MatchShift(s, p, w, d);
    }
    var t, q := s[1..], p - 1;
    if w, d :| IsMatch(t, q, w, d) {
      MatchShift(s, p, w, d);
    }
  }

  lemma MatchStart(s: string, p: nat)
    ensures MatchesAt(s, p) ==> p + 1 < |s| && s[p] == 'e' && s[p + 1] == 'x'
  {
    if w, d :| IsMatch(s, p, w, d) {
      assert s[p] == KEYWORD[0] && s[p + 1] == KEYWORD[1];
    }
  }

  /** The search finds exactly the leftmost longest match. */
  lemma {:induction false} FindIsLeftmostLongest(s: string, p: nat, w: nat, d: nat)
    requires IsLeftmostLongest(s, p, w, d)
    ensures FindSubmatch(s) == Some(Captured(s, p, w, d))
  {
    if p == 0 {
      MatchHereIsMatch(s, w, d);
    } else {
      if MatchHere(s).Some? {
        MatchHereGives(s);
        assert MatchesAt(s, 0);
        assert false;
      }
      MatchShift(s, p, w, d);
      forall q: nat | q < p - 1
        ensures !MatchesAt(s[1..], q)
      {
        MatchesAtShift(s, q + 1);
      }
      FindIsLeftmostLongest(s[1..], p - 1, w, d);
    }
  }

  lemma {:induction false} FindGivesLeftmostLongest(s: string) returns (p: nat, w: nat, d: nat)
    requires FindSubmatch(s).Some?
    ensures IsLeftmostLongest(s, p, w, d) && FindSubmatch(s).value == Captured(s, p, w, d)
  {
    if MatchHere(s).Some? {
      MatchHereGives(s);
      p, w := 0, SpaceRun(s[8..]);
      d := DigitRun(s[8 + w..]);
    } else {
      p, w, d := FindGivesLeftmostLongest(s[1..]);
      p := p + 1;
      MatchShift(s, p, w, d);
      forall q: nat | q < p
        ensures !MatchesAt(s, q)
      {
        if q > 0 {
          MatchesAtShift(s, q);
        } else if w', d' :| IsMatch(s, 0, w', d') {
          MatchHereIsMatch(s, w', d');
        }
      }
    }
  }

  /**
   * A number v is found exactly when the leftmost match of the pattern captures a maximal digit
   * run of value v below 2^64; otherwise the answer is (0, false).
   */
  lemma {:induction false} ExtractIff(s: string, v: nat)
    ensures ExtractExpectedSequence(s) == (v, true) <==>
            v < UINT64_LIMIT &&
            exists p: nat, w: nat, d: nat :: IsLeftmostLongest(s, p, w, d) && Value(Captured(s, p, w, d)) == v
    ensures !ExtractExpectedSequence(s).1 ==> ExtractExpectedSequence(s).0 == 0
  {
    if ExtractExpectedSequence(s) == (v, true) {
      var p, w, d := FindGivesLeftmostLongest(s);
    }
    if p: nat, w: nat, d: nat :| IsLeftmostLongest(s, p, w, d) && Value(Captured(s, p, w, d)) == v {
      FindIsLeftmostLongest(s, p, w, d);
    }
  }

  /** It inverts printing: any text without an earlier match, the keyword, a space, the number, no further digit. */
  lemma {:induction false} ExtractInvertsPrint(before: string, v: nat, after: string)
    requires v < UINT64_LIMIT
    requires after == "" || !IsDigit(after[0])
    requires forall q: nat | q < |before| :: !MatchesAt(before + KEYWORD + " " + Dec(v) + after, q)
    ensures ExtractExpectedSequence(before + KEYWORD + " " + Dec(v) + after) == (v, true)
  {
    var s := before + KEYWORD + " " + Dec(v) + after;
    var p, d := |before|, |Dec(v)|;
    assert s[p..p + 8] == KEYWORD;
    assert s[p + 8] == ' ';
    assert Captured(s, p, 1, d) == Dec(v);
    if after != "" {
      assert s[p + 9 + d] == after[0];
    }
    assert IsLeftmostLongest(s, p, 1, d);
    ParseUint64OfDec(v);
    FindIsLeftmostLongest(s, p, 1, d);
  }

  const MISMATCH := "account sequence mismatch"

  /** The chain's mismatch message. */
  function MismatchMessage(expected: nat, got: nat): string {
    MISMATCH + ", " + KEYWORD + " " + Dec(expected) + ", got " + Dec(got) + ": incorrect account sequence"
  }

  lemma {:induction false} ExtractFromMismatch(expected: nat, got: nat)
    requires expected < UINT64_LIMIT
    ensures Contains(MismatchMessage(expected, got), MISMATCH)
    ensures ExtractExpectedSequence(MismatchMessage(expected, got)) == (expected, true)
  {
    var before := MISMATCH + ", ";
    var after := ", got " + Dec(got) + ": incorrect account sequence";
    var s := before + KEYWORD + " " + Dec(expected) + after;
    assert s == MismatchMessage(expected, got);
    assert MISMATCH <= s;
    assert before == "account sequence mismatch, ";
    forall q: nat | q < |before|
      ensures !MatchesAt(s, q)
    {
      MatchStart(s, q);
    }
    ExtractInvertsPrint(before, expected, after);
  }

  lemma {:induction false} MismatchText(expected: nat, got: nat)
    ensures MismatchMessage(expected, got) ==
            "account sequence mismatch, expected " + Dec(expected) + ", got " + Dec(got) + ": incorrect account sequence"
  {
    assert MISMATCH + ", " + KEYWORD + " " == "account sequence mismatch, expected ";
  }

  /* ---------- the pattern's alphabet and the number's range ---------- */

  lemma {:induction false} NothingFound(s: string)
    requires forall p: nat :: !MatchesAt(s, p)
    ensures ExtractExpectedSequence(s) == (0, false)
  {
    if FindSubmatch(s).Some? {
      var p, w, d := FindGivesLeftmostLongest(s);
      assert MatchesAt(s, p);
    }
  }

  /** Without the word "expected" nothing is found. */
  lemma {:induction false} NeedsKeyword(s: string)
    requires !Contains(s, "expected")
    ensures ExtractExpectedSequence(s) == (0, false)
  {
    ContainsIff(s, "expected");
    forall p: nat
      ensures !MatchesAt(s, p)
    {
      if w, d :| IsMatch(s, p, w, d) {
        assert OccursAt(s, "expected", p);
      }
    }
    NothingFound(s);
  }

  /**
   * Exactly the space, the tab, the line feed, the carriage return and the form feed separate the word
   * from the number.
   */
  lemma {:induction false} Separators(c: char)
    ensures ExtractExpectedSequence("expected" + [c] + "7") == (7, true) <==> c in {' ', '\t', '\n', '\r', '\U{0c}'}
  {
    var s := "expected" + [c] + "7";
    assert s[0..8] == KEYWORD && s[8] == c && s[9] == '7' && |s| == 10;
    if IsSpace(c) {
      assert Captured(s, 0, 1, 1) == "7";
      assert IsMatch(s, 0, 1, 1);
      FindIsLeftmostLongest(s, 0, 1, 1);
      assert "7"[..0] == "" && Value("7") == 7;
    } else {
      forall p: nat
        ensures !MatchesAt(s, p)
      {
        if MatchesAt(s, p) {
          ShortestMatch(s, p);
        }
      }
      NothingFound(s);
    }
  }

  lemma ShortestMatch(s: string, p: nat)
    requires |s| == 10 && MatchesAt(s, p)
    ensures p == 0 && IsSpace(s[8])
  {
    var w, d :| IsMatch(s, p, w, d);
    assert IsSpace(s[p + 8]);
  }

  /** A number is found exactly if it is below 2^64; a longer one is an error of the parser. */
  lemma {:induction false} NumberRange(v: nat)
    ensures ExtractExpectedSequence("expected " + Dec(v)) == if v < 18446744073709551616 then (v, true) else (0, false)
  {
    var s, d := "expected " + Dec(v), |Dec(v)|;
    assert s[0..8] == KEYWORD && s[8] == ' ';
    assert Captured(s, 0, 1, d) == Dec(v);
    assert IsLeftmostLongest(s, 0, 1, d);
    FindIsLeftmostLongest(s, 0, 1, d);
    ValueOfDec(v);
  }
}
