/**
 * Service names: `validateServiceName` (the pattern
 * `^[a-z][a-z0-9]*(?:-[a-z0-9]+)*$`) and `toPascalCase`.
 */
module ServiceName {
  import opened Wrappers
  import opened Chars
  import opened Text

  // ---------------------------------------------------------------------------
  // validateServiceName

  /** Every character is in `[a-z0-9-]` and every hyphen is followed by a character of `[a-z0-9]`. */
  predicate WellHyphenated(s: string) {
    && (forall i :: 0 <= i < |s| ==> IsLowerAlnum(s[i]) || s[i] == '-')
    && (forall i :: 0 <= i < |s| && s[i] == '-' ==> i + 1 < |s| && IsLowerAlnum(s[i + 1]))
  }

  /** The kebab-case grammar, stated declaratively. */
  predicate IsKebabCase(s: string) {
    |s| > 0 && IsLowerLetter(s[0]) && WellHyphenated(s)
  }

  /**
   * States of a matcher for the pattern: before the first letter, inside a
   * group of `[a-z0-9]` (the only accepting state), right after a hyphen.
   */
  datatype MatchState = Start | InWord | AfterHyphen

  function Step(state: MatchState, c: char): Option<MatchState> {
    match state
    case Start => if IsLowerLetter(c) then Some(InWord) else None
    case InWord =>
      if IsLowerAlnum(c) then Some(InWord)
      else if c == '-' then Some(AfterHyphen)
      else None
    case AfterHyphen => if IsLowerAlnum(c) then Some(InWord) else None
  }

  function Run(state: MatchState, s: string): Option<MatchState>
    decreases |s|
  {
    if |s| == 0 then Some(state)
    else match Step(state, s[0])
      case None => None
      case Some(next) => Run(next, s[1..])
  }

  /** `SERVICE_NAME_PATTERN.test(s)`. */
  predicate MatchesPattern(s: string) {
    Run(Start, s) == Some(InWord)
  }

  lemma {:induction false} RunFromWord(s: string)
    ensures Run(InWord, s) == Some(InWord) <==> WellHyphenated(s)
    decreases |s|
  {
    if |s| > 0 {
      var t := s[1..];
      if IsLowerAlnum(s[0]) {
        RunFromWord(t);
        assert WellHyphenated(s) <==> WellHyphenated(t) by {
          if WellHyphenated(t) {
            forall i | 0 <= i < |s| && s[i] == '-'
              ensures i + 1 < |s| && IsLowerAlnum(s[i + 1])
            {
              assert t[i - 1] == '-';
            }
          }
          if WellHyphenated(s) {
            forall i | 0 <= i < |t| && t[i] == '-'
              ensures i + 1 < |t| && IsLowerAlnum(t[i + 1])
            {
              assert s[i + 1] == '-';
            }
          }
        }
      } else if s[0] == '-' {
        if |t| > 0 && IsLowerAlnum(t[0]) {
          RunFromWord(t[1..]);
          assert WellHyphenated(s) <==> WellHyphenated(t[1..]) by {
            if WellHyphenated(t[1..]) {
              forall i | 0 <= i < |s| && s[i] == '-'
                ensures i + 1 < |s| && IsLowerAlnum(s[i + 1])
              {
                if i > 1 {
                  assert t[1..][i - 2] == '-';
                }
              }
            }
            if WellHyphenated(s) {
              forall i | 0 <= i < |t[1..]| && t[1..][i] == '-'
                ensures i + 1 < |t[1..]| && IsLowerAlnum(t[1..][i + 1])
              {
                assert s[i + 2] == '-';
              }
            }
          }
        } else {
          assert !WellHyphenated(s) by {
            assert s[0] == '-';
          }
          if |t| > 0 {
            assert Step(AfterHyphen, t[0]) == None;
          }
        }
      } else {
        assert !WellHyphenated(s) by {
          assert !IsLowerAlnum(s[0]) && s[0] != '-';
        }
      }
    }
  }

  /** The pattern accepts exactly the kebab-case grammar. */
  lemma PatternIsKebabCase(s: string)
    ensures MatchesPattern(s) <==> IsKebabCase(s)
  {
    if |s| > 0 {
      var t := s[1..];
      if IsLowerLetter(s[0]) {
        RunFromWord(t);
        assert WellHyphenated(s) <==> WellHyphenated(t) by {
          if WellHyphenated(t) {
            forall i | 0 <= i < |s| && s[i] == '-'
              ensures i + 1 < |s| && IsLowerAlnum(s[i + 1])
            {
              assert t[i - 1] == '-';
            }
          }
          if WellHyphenated(s) {
            forall i | 0 <= i < |t| && t[i] == '-'
              ensures i + 1 < |t| && IsLowerAlnum(t[i + 1])
            {
              assert s[i + 1] == '-';
            }
          }
        }
      }
    }
  }

  const InvalidNameMessage: string :=
    "Invalid service name. Use kebab-case with lowercase letters, numbers, and hyphens (e.g. payments-api)."

  /** `validateServiceName`: passes exactly the kebab-case names, otherwise throws the fixed message. */
  function ValidateServiceName(name: string): (r: Outcome<string>)
    ensures r.Pass? <==> IsKebabCase(name)
    ensures r.Fail? ==> r.error == InvalidNameMessage
  {
    PatternIsKebabCase(name);
    if MatchesPattern(name) then Pass else Fail(InvalidNameMessage)
  }

  /** Each single rule violation is rejected. */
  lemma KebabCaseRules(s: string)
    requires IsKebabCase(s)
    ensures |s| > 0 && !IsDigit(s[0]) && s[0] != '-'
    ensures s[|s| - 1] != '-'
    ensures forall i :: 0 <= i < |s| - 1 ==> !(s[i] == '-' && s[i + 1] == '-')
    ensures forall i :: 0 <= i < |s| ==> !IsUpperLetter(s[i]) && s[i] != '_'
  {
    assert s[|s| - 1] == '-' ==> |s| - 1 + 1 < |s|;
  }

  lemma AcceptedNameExamples()
    ensures ValidateServiceName("payments-api").Pass?
    ensures ValidateServiceName("a").Pass?
  {
    assert IsKebabCase("payments-api");
    assert IsKebabCase("a");
  }

  lemma RejectedNameExamples()
    ensures ValidateServiceName("").Fail?
    ensures ValidateServiceName("1api").Fail?
    ensures ValidateServiceName("-api").Fail?
    ensures ValidateServiceName("api-").Fail?
    ensures ValidateServiceName("a--b").Fail?
    ensures ValidateServiceName("Api").Fail?
    ensures ValidateServiceName("a_b").Fail?
  {
    assert "api-"[3] == '-';
    assert "a--b"[1] == '-';
    assert !IsLowerAlnum("a_b"[1]) && "a_b"[1] != '-';
  }

  // ---------------------------------------------------------------------------
  // toPascalCase

  /** `.filter((segment) => segment.length > 0)` */
  function NonEmptySegments(segments: seq<string>): (r: seq<string>)
    ensures forall k :: 0 <= k < |r| ==> |r[k]| > 0
  {
    if |segments| == 0 then []
    else if |segments[0]| == 0 then NonEmptySegments(segments[1..])
    else [segments[0]] + NonEmptySegments(segments[1..])
  }

  /** `segment[0].toUpperCase() + segment.slice(1)` */
  function Capitalize(segment: string): string
    requires |segment| > 0
  {
    [ToUpper(segment[0])] + segment[1..]
  }

  /** `.map(...)` of `Capitalize` over non-empty segments. */
  function CapitalizeAll(segments: seq<string>): (r: seq<string>)
    requires forall k :: 0 <= k < |segments| ==> |segments[k]| > 0
    ensures |r| == |segments|
  {
    if |segments| == 0 then [] else [Capitalize(segments[0])] + CapitalizeAll(segments[1..])
  }

  /** `toPascalCase`: split on `-`, drop empty segments, capitalize each, join with nothing. */
  function ToPascalCase(value: string): string {
    Join(CapitalizeAll(NonEmptySegments(Split(value, "-"))), "")
  }

  /**
   * Reference definition by one scan of the characters: hyphens are dropped,
   * and the first character after the start or after a hyphen is upper-cased.
   */
  function PascalScan(s: string, atSegmentStart: bool): string
    decreases |s|
  {
    if |s| == 0 then []
    else if s[0] == '-' then PascalScan(s[1..], true)
    else [if atSegmentStart then ToUpper(s[0]) else s[0]] + PascalScan(s[1..], false)
  }

  /** A segment's contribution: nothing when empty, otherwise its head upper-cased and the rest as is. */
  function SegmentContribution(segment: string): string {
    if |segment| == 0 then [] else Capitalize(segment)
  }

  function ConcatContributions(segments: seq<string>): string {
    if |segments| == 0 then [] else SegmentContribution(segments[0]) + ConcatContributions(segments[1..])
  }

  lemma {:induction false} FilterMapJoin(segments: seq<string>)
    ensures Join(CapitalizeAll(NonEmptySegments(segments)), "") == ConcatContributions(segments)
  {
    if |segments| > 0 {
      FilterMapJoin(segments[1..]);
      var tail := NonEmptySegments(segments[1..]);
      var rest := CapitalizeAll(tail);
      assert ConcatContributions(segments) == SegmentContribution(segments[0]) + ConcatContributions(segments[1..]);
      if |segments[0]| > 0 {
        assert NonEmptySegments(segments) == [segments[0]] + tail;
        assert ([segments[0]] + tail)[1..] == tail;
        assert CapitalizeAll(NonEmptySegments(segments)) == [Capitalize(segments[0])] + rest;
        var head := Capitalize(segments[0]);
        assert SegmentContribution(segments[0]) == head;
        if |rest| > 0 {
          JoinCons(head, rest, "");
          assert head + "" == head;
        } else {
          assert Join([head] + rest, "") == head;
          assert ConcatContributions(segments[1..]) == [];
        }
      } else {
        assert NonEmptySegments(segments) == tail;
        assert SegmentContribution(segments[0]) == [];
      }
    }
  }

  lemma SplitOnHyphenHead(s: string)
    requires |s| > 0
    ensures s[0] == '-' ==> Split(s, "-") == [[]] + Split(s[1..], "-")
    ensures s[0] != '-' ==>
      var rest := Split(s[1..], "-");
      Split(s, "-") == [[s[0]] + rest[0]] + rest[1..]
  {
    assert OccursAt(s, "-", 0) <==> s[0] == '-' by {
      assert s[0..1] == [s[0]];
    }
  }

  lemma {:induction false} ScanFollowsSegments(s: string, atSegmentStart: bool)
    ensures PascalScan(s, atSegmentStart)
      == (if atSegmentStart then SegmentContribution(Split(s, "-")[0]) else Split(s, "-")[0])
         + ConcatContributions(Split(s, "-")[1..])
    decreases |s|
  {
    if |s| > 0 {
      SplitOnHyphenHead(s);
      var parts := Split(s, "-");
      var rest := Split(s[1..], "-");
      if s[0] == '-' {
        ScanFollowsSegments(s[1..], true);
        assert PascalScan(s, atSegmentStart) == PascalScan(s[1..], true);
        assert parts[1..] == rest;
        assert parts[0] == [];
        assert SegmentContribution(parts[0]) == [];
        assert ConcatContributions(rest) == SegmentContribution(rest[0]) + ConcatContributions(rest[1..]);
      } else {
        ScanFollowsSegments(s[1..], false);
        var head := if atSegmentStart then ToUpper(s[0]) else s[0];
        assert PascalScan(s, atSegmentStart) == [head] + PascalScan(s[1..], false);
        assert parts[1..] == rest[1..];
        assert parts[0] == [s[0]] + rest[0];
        assert (if atSegmentStart then SegmentContribution(parts[0]) else parts[0]) == [head] + rest[0] by {
          if atSegmentStart {
            assert ([s[0]] + rest[0])[1..] == rest[0];
          }
        }
        var first, others := rest[0], ConcatContributions(rest[1..]);
        assert [head] + (first + others) == [head] + first + others;
      }
    }
  }

  /** `toPascalCase` equals the single character scan. */
  lemma PascalCaseIsScan(s: string)
    ensures ToPascalCase(s) == PascalScan(s, true)
  {
    FilterMapJoin(Split(s, "-"));
    ScanFollowsSegments(s, true);
    var parts := Split(s, "-");
    assert ConcatContributions(parts) == SegmentContribution(parts[0]) + ConcatContributions(parts[1..]);
  }

  /** The scan drops exactly the hyphens and keeps every other character's position in order. */
  lemma {:induction false} ScanDropsHyphens(s: string, atSegmentStart: bool)
    ensures |PascalScan(s, atSegmentStart)| == |s| - multiset(s)['-']
    ensures '-' !in PascalScan(s, atSegmentStart)
    decreases |s|
  {
    if |s| > 0 {
      ScanDropsHyphens(s[1..], true);
      ScanDropsHyphens(s[1..], false);
      assert s == [s[0]] + s[1..];
    }
  }

  /** `toPascalCase` never yields a hyphen, and removes exactly the hyphens of its input. */
  lemma PascalCaseLength(s: string)
    ensures '-' !in ToPascalCase(s)
    ensures |ToPascalCase(s)| == |s| - multiset(s)['-']
  {
    PascalCaseIsScan(s);
    ScanDropsHyphens(s, true);
  }

  /** For a valid name the result starts with an upper-case letter. */
  lemma PascalCaseStartsUpper(s: string)
    requires IsKebabCase(s)
    ensures |ToPascalCase(s)| > 0 && IsUpperLetter(ToPascalCase(s)[0])
  {
    PascalCaseIsScan(s);
  }

  /** A hyphen-free, non-empty segment scans to itself, with its head upper-cased at a segment start. */
  lemma {:induction false} ScanSegment(x: string, atSegmentStart: bool)
    requires '-' !in x
    ensures PascalScan(x, atSegmentStart)
      == if atSegmentStart && |x| > 0 then Capitalize(x) else x
    decreases |x|
  {
    if |x| > 0 {
      assert '-' !in x[1..] by {
        assert forall k :: 0 <= k < |x[1..]| ==> x[1..][k] == x[k + 1];
      }
      ScanSegment(x[1..], false);
    }
  }

  lemma {:induction false} ScanAppend(x: string, y: string, atSegmentStart: bool)
    requires '-' !in x
    ensures PascalScan(x + "-" + y, atSegmentStart) == PascalScan(x, atSegmentStart) + PascalScan(y, true)
    decreases |x|
  {
    if |x| == 0 {
      assert (x + "-" + y)[1..] == y;
    } else {
      assert (x + "-" + y)[1..] == x[1..] + "-" + y;
      assert '-' !in x[1..] by {
        assert forall k :: 0 <= k < |x[1..]| ==> x[1..][k] == x[k + 1];
      }
      ScanAppend(x[1..], y, false);
    }
  }

  /**
   * Segment by segment: a leading non-empty segment contributes its head
   * upper-cased and the rest unchanged, an empty one contributes nothing.
   */
  lemma PascalCaseAppend(x: string, y: string)
    requires '-' !in x
    ensures ToPascalCase(x + "-" + y) == SegmentContribution(x) + ToPascalCase(y)
  {
    PascalCaseIsScan(x + "-" + y);
    PascalCaseIsScan(y);
    ScanAppend(x, y, true);
    ScanSegment(x, true);
  }

  /** A name without hyphens is capitalized. */
  lemma PascalCaseSingleSegment(x: string)
    requires '-' !in x
    ensures ToPascalCase(x) == SegmentContribution(x)
  {
    PascalCaseIsScan(x);
    ScanSegment(x, true);
  }

  /** Two hyphen-free segments are capitalized and joined. */
  lemma PascalCaseOfTwoWords(x: string, y: string)
    requires '-' !in x && '-' !in y
    ensures ToPascalCase(x + "-" + y) == SegmentContribution(x) + SegmentContribution(y)
  {
    PascalCaseAppend(x, y);
    PascalCaseSingleSegment(y);
  }

  lemma PaymentsApiContributions()
    ensures SegmentContribution("payments") + SegmentContribution("api") == "PaymentsApi"
  {
    assert ToUpper('p') == 'P' && ToUpper('a') == 'A';
    assert SegmentContribution("payments") == ['P'] + "ayments";
    assert SegmentContribution("api") == ['A'] + "pi";
  }

  lemma PascalCaseOfTwoSegments()
    ensures ToPascalCase("payments" + "-" + "api") == "PaymentsApi"
  {
    assert '-' !in "payments" && '-' !in "api";
    PascalCaseOfTwoWords("payments", "api");
    PaymentsApiContributions();
  }

  lemma PascalCaseOfEmptySegment()
    ensures ToPascalCase("a" + "-" + ("" + "-" + "b")) == "AB"
  {
    PascalCaseAppend("a", "" + "-" + "b");
    PascalCaseAppend("", "b");
    PascalCaseSingleSegment("b");
  }

  /** `payments-api` gives `PaymentsApi`, `a` gives `A`, and the empty segment of `a--b` is dropped. */
  lemma PascalCaseExamples()
    ensures ToPascalCase("payments-api") == "PaymentsApi"
    ensures ToPascalCase("a") == "A"
    ensures ToPascalCase("a--b") == "AB"
  {
    PascalCaseOfTwoSegments();
    assert "payments-api" == "payments" + "-" + "api";
    PascalCaseSingleSegment("a");
    PascalCaseOfEmptySegment();
    assert "a--b" == "a" + "-" + ("" + "-" + "b");
  }
}
