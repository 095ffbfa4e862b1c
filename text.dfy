/**
 * The text transformations applied to every template file read as text:
 * line-ending normalisation (`normalizeNewlines`) and placeholder
 * substitution (`applyPlaceholders`), the latter built from JavaScript's
 * `split(token).join(value)` idiom.
 */
module Text {

  /** `t` occurs in `s` starting at index `i`. */
  predicate OccursAt(s: string, t: string, i: nat) {
    i + |t| <= |s| && s[i..i + |t|] == t
  }

  /** `s.includes(t)`. */
  predicate Contains(s: string, t: string) {
    exists i: nat :: i <= |s| && OccursAt(s, t, i)
  }

  /** `"".split("")` is empty, otherwise the empty separator cuts between characters (Unicode scalar values). */
  function SplitChars(s: string): (parts: seq<string>)
    ensures |parts| == |s|
  {
    seq(|s|, i requires 0 <= i < |s| => [s[i]])
  }

  /**
   * `s.split(sep)`: the pieces between the non-overlapping occurrences of a
   * non-empty `sep`, found left to right.
   */
  function Split(s: string, sep: string): (parts: seq<string>)
    ensures |sep| > 0 ==> |parts| >= 1
    decreases |s|
  {
    if |sep| == 0 then SplitChars(s)
    else if |s| == 0 then [[]]
    else if OccursAt(s, sep, 0) then [[]] + Split(s[|sep|..], sep)
    else
      var rest := Split(s[1..], sep);
      [[s[0]] + rest[0]] + rest[1..]
  }

  /** `parts.join(sep)`. */
  function Join(parts: seq<string>, sep: string): string {
    if |parts| == 0 then []
    else if |parts| == 1 then parts[0]
    else parts[0] + sep + Join(parts[1..], sep)
  }

  /** One pass of `content.split(token).join(value)`. */
  function ReplaceAll(s: string, token: string, value: string): string {
    Join(Split(s, token), value)
  }

  /**
   * Reference definition of one replacement pass: scan left to right, emit
   * `value` for an occurrence of `token` and resume scanning after it.
   */
  function Substitute(s: string, token: string, value: string): string
    requires |token| > 0
    decreases |s|
  {
    if |s| == 0 then []
    else if OccursAt(s, token, 0) then value + Substitute(s[|token|..], token, value)
    else [s[0]] + Substitute(s[1..], token, value)
  }

  /** The number of non-overlapping occurrences of `token`, counted left to right. */
  function Occurrences(s: string, token: string): nat
    requires |token| > 0
    decreases |s|
  {
    if |s| == 0 then 0
    else if OccursAt(s, token, 0) then 1 + Occurrences(s[|token|..], token)
    else Occurrences(s[1..], token)
  }

  lemma JoinCons(x: string, rest: seq<string>, sep: string)
    requires |rest| >= 1
    ensures Join([x] + rest, sep) == x + sep + Join(rest, sep)
  {
    assert ([x] + rest)[1..] == rest;
  }

  lemma JoinPrependChar(c: char, rest: seq<string>, sep: string)
    requires |rest| >= 1
    ensures Join([[c] + rest[0]] + rest[1..], sep) == [c] + Join(rest, sep)
  {
    if |rest| > 1 {
      assert ([[c] + rest[0]] + rest[1..])[1..] == rest[1..];
    }
  }

  /** The split/join pass is the left-to-right scan `Substitute`. */
  lemma {:induction false} ReplaceAllIsSubstitute(s: string, token: string, value: string)
    requires |token| > 0
    ensures ReplaceAll(s, token, value) == Substitute(s, token, value)
    decreases |s|
  {
    if |s| == 0 {
    } else if OccursAt(s, token, 0) {
      var after := s[|token|..];
      var rest := Split(after, token);
      assert Split(s, token) == [[]] + rest;
      ReplaceAllIsSubstitute(after, token, value);
      JoinCons([], rest, value);
      assert [] + value == value;
      assert Substitute(s, token, value) == value + Substitute(after, token, value);
    } else {
      var after := s[1..];
      var rest := Split(after, token);
      assert Split(s, token) == [[s[0]] + rest[0]] + rest[1..];
      ReplaceAllIsSubstitute(after, token, value);
      JoinPrependChar(s[0], rest, value);
      assert Substitute(s, token, value) == [s[0]] + Substitute(after, token, value);
    }
  }

  /** A string without the token passes through a replacement pass unchanged. */
  lemma {:induction false} SubstituteWithoutToken(s: string, token: string, value: string)
    requires |token| > 0
    requires !Contains(s, token)
    ensures Substitute(s, token, value) == s
    decreases |s|
  {
    if |s| > 0 {
      assert !OccursAt(s, token, 0);
      if Contains(s[1..], token) {
        var i: nat :| i <= |s[1..]| && OccursAt(s[1..], token, i);
        assert s[1..][i..i + |token|] == s[i + 1..i + 1 + |token|];
        assert OccursAt(s, token, i + 1);
      }
      SubstituteWithoutToken(s[1..], token, value);
    }
  }

  /**
   * The inserted value is never rescanned: when the first occurrence of the
   * token in `p + token + q` is the one after `p`, the pass emits `p`, then
   * `value` verbatim whatever it contains, then continues on `q` alone.
   */
  lemma {:induction false} SubstituteSkipsValue(p: string, token: string, q: string, value: string)
    requires |token| > 0
    requires forall i: nat :: i < |p| ==> !OccursAt(p + token + q, token, i)
    ensures Substitute(p + token + q, token, value) == p + value + Substitute(q, token, value)
    decreases |p|
  {
    var s := p + token + q;
    if |p| == 0 {
      assert s == token + q;
      assert s[..|token|] == token;
      assert s[|token|..] == q;
    } else {
      assert !OccursAt(s, token, 0);
      assert s[1..] == p[1..] + token + q;
      forall i: nat | i < |p[1..]|
        ensures !OccursAt(p[1..] + token + q, token, i)
      {
        assert !OccursAt(s, token, i + 1);
        assert s[i + 1..i + 1 + |token|] == s[1..][i..i + |token|];
      }
      SubstituteSkipsValue(p[1..], token, q, value);
      assert Substitute(s, token, value) == [s[0]] + Substitute(s[1..], token, value);
      assert s[0] == p[0];
      assert [p[0]] + (p[1..] + value + Substitute(q, token, value)) == p + value + Substitute(q, token, value);
    }
  }

  /** Replacing a token by itself is the identity: `s.split(t).join(t) == s`. */
  lemma {:induction false} SubstituteSelf(s: string, token: string)
    requires |token| > 0
    ensures Substitute(s, token, token) == s
    decreases |s|
  {
    if |s| == 0 {
    } else if OccursAt(s, token, 0) {
      SubstituteSelf(s[|token|..], token);
      assert s == s[..|token|] + s[|token|..];
    } else {
      SubstituteSelf(s[1..], token);
      assert s == [s[0]] + s[1..];
    }
  }

  lemma MulSucc(n: nat, d: int)
    ensures (1 + n) * d == d + n * d
  {
  }

  /** Each occurrence replaced changes the length by `|value| - |token|`. */
  lemma {:induction false} SubstituteLength(s: string, token: string, value: string)
    requires |token| > 0
    ensures |Substitute(s, token, value)| == |s| + Occurrences(s, token) * (|value| - |token|)
    decreases |s|
  {
    if |s| == 0 {
    } else if OccursAt(s, token, 0) {
      SubstituteLength(s[|token|..], token, value);
      MulSucc(Occurrences(s[|token|..], token), |value| - |token|);
    } else {
      SubstituteLength(s[1..], token, value);
    }
  }

  /** `s.split(t).join(t) == s` for a non-empty separator. */
  lemma SplitJoinRoundTrip(s: string, token: string)
    requires |token| > 0
    ensures Join(Split(s, token), token) == s
  {
    ReplaceAllIsSubstitute(s, token, token);
    SubstituteSelf(s, token);
  }

  /** A replacement pass leaves content that does not contain the token unchanged. */
  lemma ReplaceAllWithoutToken(s: string, token: string, value: string)
    requires !Contains(s, token)
    ensures ReplaceAll(s, token, value) == s
  {
    if |token| == 0 {
      // every string contains the empty token
      assert OccursAt(s, token, 0);
    } else {
      ReplaceAllIsSubstitute(s, token, value);
      SubstituteWithoutToken(s, token, value);
    }
  }

  /** A replacement pass emits the value verbatim and does not rescan it. */
  lemma ReplaceAllSkipsValue(p: string, token: string, q: string, value: string)
    requires |token| > 0
    requires forall i: nat :: i < |p| ==> !OccursAt(p + token + q, token, i)
    ensures ReplaceAll(p + token + q, token, value) == p + value + ReplaceAll(q, token, value)
  {
    ReplaceAllIsSubstitute(p + token + q, token, value);
    ReplaceAllIsSubstitute(q, token, value);
    SubstituteSkipsValue(p, token, q, value);
  }

  /** A replacement pass changes the length by `|value| - |token|` per occurrence. */
  lemma ReplaceAllLength(s: string, token: string, value: string)
    requires |token| > 0
    ensures |ReplaceAll(s, token, value)| == |s| + Occurrences(s, token) * (|value| - |token|)
  {
    ReplaceAllIsSubstitute(s, token, value);
    SubstituteLength(s, token, value);
  }

  // ---------------------------------------------------------------------------
  // normalizeNewlines

  const CRLF: string := "\r\n"
  const LF: string := "\n"

  /** `content.replace(/\r\n/g, "\n")`: one left-to-right, non-overlapping pass. */
  function NormalizeNewlines(s: string): string
    decreases |s|
  {
    if |s| == 0 then []
    else if |s| >= 2 && s[0] == '\r' && s[1] == '\n' then LF + NormalizeNewlines(s[2..])
    else [s[0]] + NormalizeNewlines(s[1..])
  }

  lemma CrlfAtStart(s: string)
    ensures OccursAt(s, CRLF, 0) <==> |s| >= 2 && s[0] == '\r' && s[1] == '\n'
  {
    if |s| >= 2 {
      assert s[0..2] == [s[0], s[1]];
    }
  }

  /** The regular-expression replacement equals the split/join pass on `"\r\n"`. */
  lemma {:induction false} NormalizeIsSubstitute(s: string)
    ensures NormalizeNewlines(s) == Substitute(s, CRLF, LF)
    decreases |s|
  {
    CrlfAtStart(s);
    if |s| == 0 {
    } else if |s| >= 2 && s[0] == '\r' && s[1] == '\n' {
      NormalizeIsSubstitute(s[2..]);
    } else {
      NormalizeIsSubstitute(s[1..]);
    }
  }

  lemma NormalizeIsReplaceAll(s: string)
    ensures NormalizeNewlines(s) == ReplaceAll(s, CRLF, LF)
  {
    NormalizeIsSubstitute(s);
    ReplaceAllIsSubstitute(s, CRLF, LF);
  }

  /** Content without `"\r\n"` is returned unchanged. */
  lemma NormalizeWithoutCrlf(s: string)
    requires !Contains(s, CRLF)
    ensures NormalizeNewlines(s) == s
  {
    NormalizeIsSubstitute(s);
    SubstituteWithoutToken(s, CRLF, LF);
  }

  /** The result is shorter by exactly the number of non-overlapping `"\r\n"` occurrences. */
  lemma NormalizeLength(s: string)
    ensures |NormalizeNewlines(s)| == |s| - Occurrences(s, CRLF)
  {
    NormalizeIsSubstitute(s);
    SubstituteLength(s, CRLF, LF);
  }

  /**
   * No carriage return is introduced: each replaced pair loses its `'\r'`,
   * every other `'\r'` survives, and line feeds are all kept.
   */
  lemma {:induction false} NormalizeCountsCharacters(s: string)
    ensures multiset(NormalizeNewlines(s))['\r'] == multiset(s)['\r'] - Occurrences(s, CRLF)
    ensures multiset(NormalizeNewlines(s))['\n'] == multiset(s)['\n']
    decreases |s|
  {
    CrlfAtStart(s);
    if |s| == 0 {
    } else if |s| >= 2 && s[0] == '\r' && s[1] == '\n' {
      NormalizeCountsCharacters(s[2..]);
      assert s == [s[0]] + [s[1]] + s[2..];
    } else {
      NormalizeCountsCharacters(s[1..]);
      assert s == [s[0]] + s[1..];
    }
  }

  /** Normalisation is not idempotent: `"\r\r\n"` needs two passes to lose both carriage returns. */
  lemma NormalizeNotIdempotent()
    ensures NormalizeNewlines("\r\r\n") == "\r\n"
    ensures NormalizeNewlines(NormalizeNewlines("\r\r\n")) == "\n"
  {
    var s := "\r\r\n";
    assert s[1..] == "\r\n";
    assert "\r\n"[2..] == [];
  }

  // ---------------------------------------------------------------------------
  // applyPlaceholders

  /** One `[token, value]` pair of the placeholder list. */
  datatype Placeholder = Placeholder(token: string, value: string)

  /** Every pass of the placeholder list, applied in list order, each to the previous output. */
  function ApplyAll(content: string, placeholders: seq<Placeholder>): string
    decreases |placeholders|
  {
    if |placeholders| == 0 then content
    else
      var last := placeholders[|placeholders| - 1];
      ReplaceAll(ApplyAll(content, placeholders[..|placeholders| - 1]), last.token, last.value)
  }

  /** `applyPlaceholders`: a `for` loop that replaces `result` pass by pass. */
  method ApplyPlaceholders(content: string, placeholders: seq<Placeholder>) returns (result: string)
    ensures result == ApplyAll(content, placeholders)
  {
    result := content;
    for i := 0 to |placeholders|
      invariant result == ApplyAll(content, placeholders[..i])
    {
      assert placeholders[..i + 1][..i] == placeholders[..i];
      result := ReplaceAll(result, placeholders[i].token, placeholders[i].value);
    }
    assert placeholders[..|placeholders|] == placeholders;
  }

  /** The first pass runs on the raw content, every later pass on the output of the previous one. */
  lemma {:induction false} ApplyAllFirstPass(content: string, p: Placeholder, rest: seq<Placeholder>)
    ensures ApplyAll(content, [p] + rest) == ApplyAll(ReplaceAll(content, p.token, p.value), rest)
    decreases |rest|
  {
    if |rest| > 0 {
      var all := [p] + rest;
      assert all[..|all| - 1] == [p] + rest[..|rest| - 1];
      ApplyAllFirstPass(content, p, rest[..|rest| - 1]);
    }
  }

  /** Content that contains none of the tokens is left unchanged. */
  lemma {:induction false} ApplyAllWithoutTokens(content: string, placeholders: seq<Placeholder>)
    requires forall k :: 0 <= k < |placeholders| ==> !Contains(content, placeholders[k].token)
    ensures ApplyAll(content, placeholders) == content
    decreases |placeholders|
  {
    if |placeholders| > 0 {
      var n := |placeholders| - 1;
      ApplyAllWithoutTokens(content, placeholders[..n]);
      ReplaceAllWithoutToken(content, placeholders[n].token, placeholders[n].value);
    }
  }

  /** A later pass does scan the value an earlier pass inserted. */
  lemma LaterPassSeesEarlierValue()
    ensures ApplyAll("A", [Placeholder("A", "B"), Placeholder("B", "C")]) == "C"
  {
    var ps := [Placeholder("A", "B"), Placeholder("B", "C")];
    assert ps[..1] == [Placeholder("A", "B")];
    assert ps[..1][..0] == [];
    ReplaceAllIsSubstitute("A", "A", "B");
    ReplaceAllIsSubstitute("B", "B", "C");
    assert OccursAt("A", "A", 0);
    assert OccursAt("B", "B", 0);
  }
}
