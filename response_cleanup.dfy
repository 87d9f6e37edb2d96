/**
 * How the review endpoint turns the provider's reply text into a review
 * (backend/server.js, the success branch of the attempt loop): strip code
 * fences, trim, parse strictly, else parse the span from the first `{` to
 * the last `}`, else build a fixed degraded review.  `JSON.parse` is a
 * parameter: a partial function from text to a review.
 */
module ResponseCleanup {
  import opened Wrappers
  import opened ReviewTypes
  import Text

  predicate IsBacktick(c: char) { c == '`' }

  /** `s` starts with the three backticks of a code fence. */
  predicate FenceAt(s: string, i: nat) {
    i + 3 <= |s| && s[i] == '`' && s[i + 1] == '`' && s[i + 2] == '`'
  }

  predicate HasFence(s: string) {
    exists i :: 0 <= i < |s| && FenceAt(s, i)
  }

  predicate NoBacktick(s: string) {
    forall i :: 0 <= i < |s| ==> s[i] != '`'
  }

  /** `s` starts with "```json", the letters in any case. */
  predicate JsonFenceStart(s: string) {
    |s| >= 7 && FenceAt(s, 0) && Text.Lower(s[3..7]) == "json"
  }

  /** `text.replace(/```json\n?/gi, '')`: each "```json" (any case), with one newline after it if present, removed. */
  function StripJsonFences(s: string): (r: string)
    ensures |r| <= |s|
    decreases |s|
  {
    if s == [] then []
    else if JsonFenceStart(s) then
      if |s| >= 8 && s[7] == '\n' then StripJsonFences(s[8..]) else StripJsonFences(s[7..])
    else [s[0]] + StripJsonFences(s[1..])
  }

  /** `.replace(/```\n?/gi, '')`: each "```", with one newline after it if present, removed. */
  function StripFences(s: string): (r: string)
    ensures |r| <= |s|
    decreases |s|
  {
    if s == [] then []
    else if FenceAt(s, 0) then
      if |s| >= 4 && s[3] == '\n' then StripFences(s[4..]) else StripFences(s[3..])
    else [s[0]] + StripFences(s[1..])
  }

  /**
   * Lines 169-170: both fence removals, then `trim()`; the second,
   * regular-expression trim removes the same white space again and changes
   * nothing (Text.TrimIdempotent).
   */
  function CleanText(raw: string): string {
    Text.Trim(StripFences(StripJsonFences(raw)))
  }

  /** The cleaned text has no surrounding white space and no fence left anywhere in it. */
  lemma CleanTextShape(raw: string)
    ensures var r := CleanText(raw);
            Text.IsTrimmed(r) && !HasFence(r)
  {
    var stripped := StripFences(StripJsonFences(raw));
    StripFencesLeavesNoFence(StripJsonFences(raw));
    TrimKeepsNoFence(stripped);
  }

  /** A string that does not start with a backtick keeps its first character through StripFences. */
  lemma StripFencesFirst(s: string)
    requires s != [] && s[0] != '`'
    ensures StripFences(s) != [] && StripFences(s)[0] == s[0]
  {
  }

  /** Removing fences from left to right never leaves a fence behind. */
  lemma {:induction false} StripFencesLeavesNoFence(s: string)
    ensures !HasFence(StripFences(s))
    decreases |s|
  {
    if s == [] {
    } else if FenceAt(s, 0) {
      if |s| >= 4 && s[3] == '\n' { StripFencesLeavesNoFence(s[4..]); } else { StripFencesLeavesNoFence(s[3..]); }
    } else {
      var rest := StripFences(s[1..]);
      StripFencesLeavesNoFence(s[1..]);
      var r := [s[0]] + rest;
      assert StripFences(s) == r;
      forall i | 0 <= i < |r| ensures !FenceAt(r, i) {
        if i > 0 {
          assert !FenceAt(rest, i - 1);
        } else if s[0] == '`' && |s| >= 2 && s[1] != '`' {
          StripFencesFirst(s[1..]);
        } else if s[0] == '`' && |s| >= 3 && s[1] == '`' {
          // s does not start with a fence, so s[2] is not a backtick
          assert s[2] != '`';
          assert !FenceAt(s[1..], 0);
          StripFencesFirst(s[2..]);
          assert rest == [s[1]] + StripFences(s[2..]);
        }
      }
    }
  }

  /** Trimming takes a slice, so it cannot create a fence. */
  lemma TrimKeepsNoFence(s: string)
    requires !HasFence(s)
    ensures !HasFence(Text.Trim(s))
  {
    var a := Text.LeadingSpace(s);
    if a < |s| {
      var b := Text.TrailingSpace(s);
      var t := s[a..|s| - b];
      assert Text.Trim(s) == t;
      forall i | 0 <= i < |t| ensures !FenceAt(t, i) {
        assert !FenceAt(s, a + i);
      }
    }
  }

  /** Text without backticks passes through both fence removals unchanged. */
  lemma {:induction false} NoBacktickUnchanged(s: string)
    requires NoBacktick(s)
    ensures StripJsonFences(s) == s && StripFences(s) == s
    decreases |s|
  {
    if s != [] {
      NoBacktickUnchanged(s[1..]);
      assert s == [s[0]] + s[1..];
    }
  }

  /** A backtick-free prefix passes through the ```json removal unchanged. */
  lemma {:induction false} StripJsonAppend(a: string, b: string)
    requires NoBacktick(a)
    ensures StripJsonFences(a + b) == a + StripJsonFences(b)
    decreases |a|
  {
    if a != [] {
      var ab := a + b;
      assert ab[0] == a[0] && ab[1..] == a[1..] + b;
      assert !JsonFenceStart(ab);
      StripJsonAppend(a[1..], b);
      assert a == [a[0]] + a[1..];
    } else {
      assert a + b == b;
    }
  }

  /** A backtick-free prefix passes through the ``` removal unchanged. */
  lemma {:induction false} StripFencesAppend(a: string, b: string)
    requires NoBacktick(a)
    ensures StripFences(a + b) == a + StripFences(b)
    decreases |a|
  {
    if a != [] {
      var ab := a + b;
      assert ab[0] == a[0] && ab[1..] == a[1..] + b;
      assert !FenceAt(ab, 0);
      StripFencesAppend(a[1..], b);
      assert a == [a[0]] + a[1..];
    } else {
      assert a + b == b;
    }
  }

  /** A reply wrapped in a ```json fence cleans to its trimmed body. */
  lemma CleanFencedJson(body: string)
    requires NoBacktick(body)
    ensures CleanText("```json\n" + body + "\n```") == Text.Trim(body)
  {
    var raw := "```json\n" + body + "\n```";
    var tail := "\n```";
    assert JsonFenceStart(raw) && raw[7] == '\n';
    assert raw[8..] == body + tail;
    StripJsonAppend(body, tail);
    StripFencesAppend(body, tail);
    assert StripJsonFences("```") == "```" by {
      assert "```"[1..] == "``" && "``"[1..] == "`" && "`"[1..] == [];
    }
    assert StripJsonFences(tail) == tail by {
      assert tail[1..] == "```";
    }
    assert StripJsonFences(raw) == body + tail;
    assert StripFences(tail) == "\n" by {
      assert tail[1..] == "```";
      assert StripFences("```") == [];
    }
    assert StripFences(body + tail) == body + "\n";
    Text.TrimAbsorbsTrailingSpace(body, "\n");
  }

  /** Line terminators for the `m` flag: `^` and `$` match next to these. */
  predicate IsLineTerminator(c: char) {
    c == '\n' || c == '\r' || c == '\U{2028}' || c == '\U{2029}'
  }

  /** `\w`: ASCII letters, digits and underscore. */
  predicate IsWordChar(c: char) {
    ('a' <= c <= 'z') || ('A' <= c <= 'Z') || ('0' <= c <= '9') || c == '_'
  }

  /** Length of the run of word characters at the start of `s`. */
  function WordRun(s: string): (n: nat)
    ensures n <= |s| && (forall i :: 0 <= i < n ==> IsWordChar(s[i]))
    ensures n < |s| ==> !IsWordChar(s[n])
  {
    if s != [] && IsWordChar(s[0]) then 1 + WordRun(s[1..]) else 0
  }

  /**
   * `.replace(/^```[\w]*\n?/gm, '')`: at the start of each line, "```", the
   * language tag after it and one newline are removed.  `lineStart` says
   * whether the position before `s` is the start of the text or follows a
   * line terminator of the original text.
   */
  function StripOpeningFences(s: string, lineStart: bool): (r: string)
    ensures |r| <= |s|
    decreases |s|
  {
    if s == [] then []
    else if lineStart && FenceAt(s, 0) then
      var j := 3 + WordRun(s[3..]);
      if j < |s| && s[j] == '\n' then StripOpeningFences(s[j + 1..], true)
      else StripOpeningFences(s[j..], false)
    else [s[0]] + StripOpeningFences(s[1..], IsLineTerminator(s[0]))
  }

  /** `.replace(/```$/gm, '')`: each "```" at the end of a line or of the text is removed. */
  function StripClosingFences(s: string): (r: string)
    ensures |r| <= |s|
    decreases |s|
  {
    if s == [] then []
    else if FenceAt(s, 0) && (|s| == 3 || IsLineTerminator(s[3])) then StripClosingFences(s[3..])
    else [s[0]] + StripClosingFences(s[1..])
  }

  /** Lines 176-179: the `improvedCode` clean-up, ending with `trim()`. */
  function SanitizeCode(code: string): (r: string)
    ensures Text.IsTrimmed(r)
  {
    Text.Trim(StripClosingFences(StripOpeningFences(code, true)))
  }

  /** A backtick-free prefix passes through the opening-fence removal unchanged. */
  lemma {:induction false} StripOpeningAppend(a: string, b: string, lineStart: bool)
    requires NoBacktick(a)
    ensures StripOpeningFences(a + b, lineStart)
            == a + StripOpeningFences(b, if a == [] then lineStart else IsLineTerminator(a[|a| - 1]))
    decreases |a|
  {
    if a != [] {
      var ab := a + b;
      assert ab[0] == a[0] && ab[1..] == a[1..] + b;
      assert !FenceAt(ab, 0);
      StripOpeningAppend(a[1..], b, IsLineTerminator(a[0]));
      assert a == [a[0]] + a[1..];
      if |a| > 1 { assert a[1..][|a[1..]| - 1] == a[|a| - 1]; }
    } else {
      assert a + b == b;
    }
  }

  /** A backtick-free prefix passes through the closing-fence removal unchanged. */
  lemma {:induction false} StripClosingAppend(a: string, b: string)
    requires NoBacktick(a)
    ensures StripClosingFences(a + b) == a + StripClosingFences(b)
    decreases |a|
  {
    if a != [] {
      var ab := a + b;
      assert ab[0] == a[0] && ab[1..] == a[1..] + b;
      assert !FenceAt(ab, 0);
      StripClosingAppend(a[1..], b);
      assert a == [a[0]] + a[1..];
    } else {
      assert a + b == b;
    }
  }

  /** Code without backticks is only trimmed. */
  lemma SanitizePlainCode(code: string)
    requires NoBacktick(code)
    ensures SanitizeCode(code) == Text.Trim(code)
  {
    StripOpeningAppend(code, [], true);
    StripClosingAppend(code, []);
    assert code + [] == code;
  }

  /** A code block fenced as ```lang ... ``` sanitizes to its trimmed body. */
  lemma SanitizeFencedBlock(tag: string, body: string)
    requires forall i :: 0 <= i < |tag| ==> IsWordChar(tag[i])
    requires NoBacktick(body)
    ensures SanitizeCode("```" + tag + "\n" + body + "\n```") == Text.Trim(body)
  {
    var code := "```" + tag + "\n" + body + "\n```";
    var rest := body + "\n```";
    assert code == "```" + tag + "\n" + rest;
    assert FenceAt(code, 0);
    assert code[3..] == tag + "\n" + rest;
    WordRunOf(tag, "\n" + rest);
    assert code[3 + |tag|] == '\n';
    assert code[3 + |tag| + 1..] == rest;
    // the body is copied, then the newline, then "```" at a line start goes
    StripOpeningAppend(body + "\n", "```", true);
    assert body + "\n" + "```" == rest;
    assert (body + "\n")[|body + "\n"| - 1] == '\n';
    assert NoBacktick(body + "\n");
    assert StripOpeningFences("```", true) == [] by {
      assert WordRun("```"[3..]) == 0;
    }
    assert StripOpeningFences(code, true) == body + "\n";
    StripClosingAppend(body + "\n", []);
    assert body + "\n" + [] == body + "\n";
    Text.TrimAbsorbsTrailingSpace(body, "\n");
  }

  lemma WordRunOf(tag: string, rest: string)
    requires forall i :: 0 <= i < |tag| ==> IsWordChar(tag[i])
    requires rest != [] && !IsWordChar(rest[0])
    ensures WordRun(tag + rest) == |tag|
  {
    if tag != [] {
      assert (tag + rest)[1..] == tag[1..] + rest;
      WordRunOf(tag[1..], rest);
    } else {
      assert tag + rest == rest;
    }
  }

  /** When the first '{' does not precede the last '}', no '{' precedes any '}'. */
  lemma NoBracePair(s: string)
    requires '{' in s && '}' in s && Text.IndexOf(s, '{') >= Text.LastIndexOf(s, '}')
    ensures forall a, b :: 0 <= a < |s| && 0 <= b < |s| && s[a] == '{' && s[b] == '}' ==> b <= a
  {
    forall a, b | 0 <= a < |s| && 0 <= b < |s| && s[a] == '{' && s[b] == '}' ensures b <= a {
      Text.IndexOfIsFirst(s, '{', a);
      Text.LastIndexOfIsLast(s, '}', b);
    }
  }

  /**
   * `text.match(/\{[\s\S]*\}/)`: the leftmost, longest span that starts with
   * `{` and ends with `}`, that is from the first `{` to the last `}`; None
   * when no `}` follows a `{`.
   */
  function ExtractObject(s: string): Option<string> {
    if '{' in s && '}' in s then
      var i, j := Text.IndexOf(s, '{'), Text.LastIndexOf(s, '}');
      if i < j then Some(s[i..j + 1]) else None
    else
      None
  }

  /**
   * A span is found exactly when some '{' precedes some '}'; it starts with
   * '{', ends with '}', and is a slice of the text with no '{' before it and
   * no '}' after it.
   */
  lemma ExtractObjectSpan(s: string)
    ensures var r := ExtractObject(s);
            && (r.Some? <==> exists i, j :: 0 <= i < j < |s| && s[i] == '{' && s[j] == '}')
            && (r.Some? ==> |r.value| >= 2 && r.value[0] == '{' && r.value[|r.value| - 1] == '}')
            && (r.Some? ==> exists i :: 0 <= i <= |s| - |r.value| && r.value == s[i..i + |r.value|]
                                        && '{' !in s[..i] && '}' !in s[i + |r.value|..])
  {
    if '{' in s && '}' in s {
      var i, j := Text.IndexOf(s, '{'), Text.LastIndexOf(s, '}');
      if i < j {
        var r := s[i..j + 1];
        assert s[i + |r|..] == s[j + 1..];
      } else {
        NoBracePair(s);
      }
    }
  }

  /** The score and summary length of the degraded review. */
  const FallbackScore := 7
  const SummaryLength: nat := 500

  /** Lines 212-224: the review returned when neither parse succeeds. */
  function Fallback(text: string, code: string): Review
  {
    Review(Text.Prefix(text, SummaryLength), Some(FallbackScore), Some([]), [], [], code,
           ["Code submitted for review"])
  }

  /** A parsed review with a non-empty `improvedCode` gets that field sanitized; nothing else changes. */
  function SanitizeReview(rv: Review): Review {
    if rv.improvedCode != [] then rv.(improvedCode := SanitizeCode(rv.improvedCode)) else rv
  }

  /** The outcome of normalisation: a parsed review (reported with `keyUsed`) or the degraded one (without). */
  datatype Normalized = Parsed(review: Review) | Degraded(review: Review)

  /** Lines 168-224: clean the reply, then strict parse, brace extraction, fallback. */
  function Normalize(raw: string, code: string, parse: string -> Option<Review>): Normalized {
    var text := CleanText(raw);
    match parse(text)
    case Some(rv) => Parsed(SanitizeReview(rv))
    case None =>
      match ExtractObject(text)
      case Some(span) =>
        (match parse(span)
         case Some(rv) => Parsed(SanitizeReview(rv))
         case None => Degraded(Fallback(text, code)))
      case None => Degraded(Fallback(text, code))
  }

  /**
   * The reply is parsed exactly when the cleaned text, or the brace span
   * extracted from it, parses; the strict parse wins over the extraction;
   * a parsed review is sanitized and otherwise the fallback is built from
   * the cleaned text.
   */
  lemma NormalizeCases(raw: string, code: string, parse: string -> Option<Review>)
    ensures var r := Normalize(raw, code, parse);
            var text := CleanText(raw);
            var inner := ExtractObject(text);
            && (r.Parsed? <==> parse(text).Some? || (inner.Some? && parse(inner.value).Some?))
            && (parse(text).Some? ==> r == Parsed(SanitizeReview(parse(text).value)))
            && ((parse(text).None? && inner.Some? && parse(inner.value).Some?)
                ==> r == Parsed(SanitizeReview(parse(inner.value).value)))
            && (r.Degraded? ==> r.review == Fallback(text, code))
  {
  }

  /** A ```json-fenced reply whose body parses yields that review, code sanitized. */
  lemma NormalizeFencedJson(body: string, code: string, parse: string -> Option<Review>, rv: Review)
    requires NoBacktick(body) && parse(Text.Trim(body)) == Some(rv)
    ensures Normalize("```json\n" + body + "\n```", code, parse) == Parsed(SanitizeReview(rv))
  {
    CleanFencedJson(body);
  }

  /**
   * A short plain reply without fences or braces that does not parse yields
   * the degraded review: its trimmed text as summary, score 7, the
   * submitted code unchanged.
   */
  lemma NormalizePlainText(raw: string, code: string, parse: string -> Option<Review>)
    requires NoBacktick(raw) && '{' !in raw && |raw| <= SummaryLength
    requires parse(Text.Trim(raw)) == None
    ensures var r := Normalize(raw, code, parse);
            r.Degraded? && r.review.summary == Text.Trim(raw) && r.review.score == Some(7)
            && r.review.improvedCode == code
  {
    NoBacktickUnchanged(raw);
    var text := Text.Trim(raw);
    assert CleanText(raw) == text;
    Text.TrimKeepsAbsent(raw, '{');
  }
}
