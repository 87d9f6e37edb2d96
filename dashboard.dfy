/**
 * The statistics the dashboard derives from the review history
 * (frontend/src/components/Dashboard.jsx lines 38-51) and its badge
 * (lines 197-200).  Everything here is a pure function of the history,
 * which is newest first.
 */
module Dashboard {
  import opened Wrappers
  import opened ReviewTypes
  import Text
  import JsNumber
  import Auth
  import opened History

  /** `h.score || 0`: a missing score (and a score of 0) counts as 0. */
  function ScoreOrZero(item: HistoryItem): int
  {
    if item.score.Some? then item.score.value else 0
  }

  function ScoreSum(history: seq<HistoryItem>): int
  {
    if history == [] then 0 else ScoreOrZero(history[0]) + ScoreSum(history[1..])
  }

  /** `totalReviews`. */
  function TotalReviews(history: seq<HistoryItem>): nat
  {
    |history|
  }

  /**
   * `avgScore`: 0 for an empty history, otherwise the mean score rounded
   * to the nearest integer, halves upwards.
   */
  function AvgScore(history: seq<HistoryItem>): (r: int)
    ensures |history| == 0 ==> r == 0
    ensures |history| > 0 ==>
      2 * ScoreSum(history) - |history| < 2 * |history| * r <= 2 * ScoreSum(history) + |history|
  {
    if |history| > 0 then JsNumber.RoundQuotient(ScoreSum(history), |history|) else 0
  }

  lemma {:induction false} ScoreSumWithin(history: seq<HistoryItem>, lo: int, hi: int)
    requires forall i :: 0 <= i < |history| ==> lo <= ScoreOrZero(history[i]) <= hi
    ensures |history| * lo <= ScoreSum(history) <= |history| * hi
  {
    if history != [] {
      var rest := history[1..];
      assert forall i :: 0 <= i < |rest| ==> rest[i] == history[i + 1];
      ScoreSumWithin(rest, lo, hi);
      assert |history| * lo == |rest| * lo + lo && |history| * hi == |rest| * hi + hi;
    }
  }

  /** When every counted score lies in `lo..hi`, so does the average. */
  lemma AvgScoreWithin(history: seq<HistoryItem>, lo: int, hi: int)
    requires |history| > 0
    requires forall i :: 0 <= i < |history| ==> lo <= ScoreOrZero(history[i]) <= hi
    ensures lo <= AvgScore(history) <= hi
  {
    ScoreSumWithin(history, lo, hi);
    JsNumber.RoundQuotientWithin(ScoreSum(history), |history|, lo, hi);
  }

  /** `h.review?.bugs?.length || 0`. */
  function BugsOf(item: HistoryItem): nat
  {
    if item.review.Some? then Auth.BugCount(item.review.value) else 0
  }

  /** `totalBugs`. */
  function TotalBugs(history: seq<HistoryItem>): nat
  {
    if history == [] then 0 else BugsOf(history[0]) + TotalBugs(history[1..])
  }

  /**
   * The dashboard's bug total over entries carrying reviews equals the
   * bugs the account statistics count for the same reviews.
   */
  lemma {:induction false} TotalBugsMatchesStats(history: seq<HistoryItem>, reviews: seq<Review>)
    requires |history| == |reviews|
    requires forall i :: 0 <= i < |history| ==> history[i].review == Some(reviews[i])
    ensures TotalBugs(history) == Auth.SumBugs(reviews)
  {
    if history != [] {
      var h, rs := history[1..], reviews[1..];
      assert forall i :: 0 <= i < |h| ==> h[i] == history[i + 1] && rs[i] == reviews[i + 1];
      TotalBugsMatchesStats(h, rs);
    }
  }

  /** Entries without a review, or whose review has no bug list, add nothing. */
  lemma {:induction false} TotalBugsSkipsMissing(history: seq<HistoryItem>)
    requires forall i :: 0 <= i < |history| ==> history[i].review.None? || history[i].review.value.bugs.None?
    ensures TotalBugs(history) == 0
  {
    if history != [] {
      var rest := history[1..];
      assert forall i :: 0 <= i < |rest| ==> rest[i] == history[i + 1];
      TotalBugsSkipsMissing(rest);
    }
  }

  /**
   * `languageBreakdown`: a JavaScript object used as a counter, modelled as
   * an association list in the order keys are first inserted.
   */
  type Counts = seq<(string, nat)>

  /** `acc[lang] || 0`. */
  function Get(acc: Counts, lang: string): nat
  {
    if acc == [] then 0 else if acc[0].0 == lang then acc[0].1 else Get(acc[1..], lang)
  }

  predicate Listed(acc: Counts, lang: string)
  {
    exists k :: 0 <= k < |acc| && acc[k].0 == lang
  }

  /** `acc[lang] = (acc[lang] || 0) + 1`. */
  function Bump(acc: Counts, lang: string): Counts
  {
    if acc == [] then [(lang, 1)]
    else if acc[0].0 == lang then [(lang, acc[0].1 + 1)] + acc[1..]
    else [acc[0]] + Bump(acc[1..], lang)
  }

  function Breakdown(history: seq<HistoryItem>): Counts
  {
    if history == [] then [] else Bump(Breakdown(history[..|history| - 1]), history[|history| - 1].language)
  }

  /** The number of entries in `history` with that language. */
  function Occurrences(history: seq<HistoryItem>, lang: string): nat
  {
    if history == [] then 0
    else Occurrences(history[..|history| - 1], lang) + (if history[|history| - 1].language == lang then 1 else 0)
  }

  function Total(acc: Counts): nat
  {
    if acc == [] then 0 else acc[0].1 + Total(acc[1..])
  }

  predicate DistinctKeys(acc: Counts)
  {
    forall j, k :: 0 <= j < k < |acc| ==> acc[j].0 != acc[k].0
  }

  predicate AllPositive(acc: Counts)
  {
    forall k :: 0 <= k < |acc| ==> acc[k].1 >= 1
  }

  /** Bumping adds one to that language's count and to the total, and no other count changes. */
  lemma {:induction false} BumpCounts(acc: Counts, lang: string)
    ensures forall l :: Get(Bump(acc, lang), l) == Get(acc, l) + (if l == lang then 1 else 0)
    ensures Total(Bump(acc, lang)) == Total(acc) + 1
  {
    if acc != [] && acc[0].0 != lang {
      BumpCounts(acc[1..], lang);
    }
  }

  /** After bumping, the listed languages are the old ones and the bumped one. */
  lemma {:induction false} BumpListed(acc: Counts, lang: string)
    ensures forall l :: Listed(Bump(acc, lang), l) <==> Listed(acc, l) || l == lang
  {
    var b := Bump(acc, lang);
    if acc == [] {
      assert b[0].0 == lang;
    } else if acc[0].0 == lang {
      forall l ensures Listed(b, l) <==> Listed(acc, l) || l == lang {
        assert b[0].0 == lang;
        if Listed(acc, l) {
          var k :| 0 <= k < |acc| && acc[k].0 == l;
          assert b[k].0 == l;
        }
        if Listed(b, l) {
          var k :| 0 <= k < |b| && b[k].0 == l;
          assert acc[k].0 == l;
        }
      }
    } else {
      var rest := acc[1..];
      BumpListed(rest, lang);
      var br := Bump(rest, lang);
      assert b == [acc[0]] + br;
      forall l ensures Listed(b, l) <==> Listed(acc, l) || l == lang {
        if Listed(acc, l) || l == lang {
          if l != acc[0].0 {
            if l != lang {
              var k :| 0 <= k < |acc| && acc[k].0 == l;
              assert rest[k - 1].0 == l;
              assert Listed(rest, l);
            }
            assert Listed(br, l);
            var m :| 0 <= m < |br| && br[m].0 == l;
            assert b[m + 1].0 == l;
          } else {
            assert b[0].0 == l;
          }
        }
        if Listed(b, l) {
          var k :| 0 <= k < |b| && b[k].0 == l;
          if k > 0 {
            assert br[k - 1].0 == l;
            assert Listed(br, l);
            if l != lang {
              var m :| 0 <= m < |rest| && rest[m].0 == l;
              assert acc[m + 1].0 == l;
            }
          } else {
            assert acc[0].0 == l;
          }
        }
      }
    }
  }

  /** Bumping keeps the keys distinct and the counts positive. */
  lemma {:induction false} BumpKeepsShape(acc: Counts, lang: string)
    requires DistinctKeys(acc) && AllPositive(acc)
    ensures DistinctKeys(Bump(acc, lang)) && AllPositive(Bump(acc, lang))
  {
    var b := Bump(acc, lang);
    if acc != [] && acc[0].0 == lang {
      assert b[1..] == acc[1..];
    } else if acc != [] {
      var rest := acc[1..];
      assert DistinctKeys(rest) && AllPositive(rest) by {
        assert forall k :: 0 <= k < |rest| ==> rest[k] == acc[k + 1];
      }
      BumpKeepsShape(rest, lang);
      BumpListed(rest, lang);
      var br := Bump(rest, lang);
      assert b == [acc[0]] + br;
      assert !Listed(br, acc[0].0) by {
        forall m | 0 <= m < |rest| ensures rest[m].0 != acc[0].0 {
          assert rest[m] == acc[m + 1];
        }
      }
      forall j, k | 0 <= j < k < |b| ensures b[j].0 != b[k].0 {
        if j == 0 {
          assert b[k] == br[k - 1];
        } else {
          assert b[j] == br[j - 1] && b[k] == br[k - 1];
        }
      }
      assert AllPositive(b) by {
        assert forall k :: 1 <= k < |b| ==> b[k] == br[k - 1];
      }
    }
  }

  /** A listed key's count is the count stored in its entry; an unlisted key's count is 0. */
  lemma {:induction false} GetListed(acc: Counts, lang: string)
    requires DistinctKeys(acc) && AllPositive(acc)
    ensures Listed(acc, lang) <==> Get(acc, lang) > 0
  {
    if acc != [] {
      var rest := acc[1..];
      assert DistinctKeys(rest) && AllPositive(rest) by {
        assert forall k :: 0 <= k < |rest| ==> rest[k] == acc[k + 1];
      }
      GetListed(rest, lang);
      if acc[0].0 != lang {
        if Listed(acc, lang) {
          var k :| 0 <= k < |acc| && acc[k].0 == lang;
          assert rest[k - 1].0 == lang;
        }
        if Listed(rest, lang) {
          var k :| 0 <= k < |rest| && rest[k].0 == lang;
          assert acc[k + 1].0 == lang;
        }
      }
    }
  }

  /**
   * The breakdown lists each language of the history once, with the number
   * of entries in that language, and its counts add up to `totalReviews`.
   */
  lemma {:induction false} BreakdownCounts(history: seq<HistoryItem>)
    ensures DistinctKeys(Breakdown(history)) && AllPositive(Breakdown(history))
    ensures forall lang :: Get(Breakdown(history), lang) == Occurrences(history, lang)
    ensures forall lang :: Listed(Breakdown(history), lang) <==> Occurrences(history, lang) > 0
    ensures Total(Breakdown(history)) == TotalReviews(history)
  {
    if history != [] {
      var init := history[..|history| - 1];
      var lang := history[|history| - 1].language;
      BreakdownCounts(init);
      BumpCounts(Breakdown(init), lang);
      BumpKeepsShape(Breakdown(init), lang);
      var b := Breakdown(history);
      forall l ensures Listed(b, l) <==> Occurrences(history, l) > 0 {
        GetListed(b, l);
      }
    }
  }

  /** `history.slice(0, 7).reverse()`: the last seven reviews, oldest first. */
  function Recent(history: seq<HistoryItem>): seq<HistoryItem>
  {
    Reverse(history[..Min(7, |history|)])
  }

  /** `recentReviews.map(h => h.score || 0)`. */
  function TrendScores(recent: seq<HistoryItem>): seq<int>
  {
    seq(|recent|, i requires 0 <= i < |recent| => ScoreOrZero(recent[i]))
  }

  /** `recentReviews.map((_, i) => \`Review ${i + 1}\`)`. */
  function TrendLabels(n: nat): seq<string>
  {
    seq(n, i requires 0 <= i < n => "Review " + Text.NatToString(i + 1))
  }

  /**
   * The trend shows the min(7, n) newest entries with the newest last, one
   * score and one label per point, and no two labels alike.
   */
  lemma TrendShape(history: seq<HistoryItem>)
    ensures |Recent(history)| == Min(7, |history|)
    ensures forall i :: 0 <= i < |Recent(history)| ==> Recent(history)[i] == history[|Recent(history)| - 1 - i]
    ensures |TrendScores(Recent(history))| == |TrendLabels(|Recent(history)|)|
    ensures forall i :: 0 <= i < |Recent(history)| ==>
      TrendScores(Recent(history))[i] == ScoreOrZero(history[|Recent(history)| - 1 - i])
    ensures forall i, j :: 0 <= i < j < |Recent(history)| ==> TrendLabels(|Recent(history)|)[i] != TrendLabels(|Recent(history)|)[j]
  {
    var m := Min(7, |history|);
    ReverseAt(history[..m]);
    var labels := TrendLabels(m);
    forall i, j | 0 <= i < j < m ensures labels[i] != labels[j] {
      var p := "Review ";
      assert labels[i][|p|..] == Text.NatToString(i + 1);
      assert labels[j][|p|..] == Text.NatToString(j + 1);
      Text.NatToStringRoundTrip(i + 1);
      Text.NatToStringRoundTrip(j + 1);
    }
  }

  /** The award card: an emoji and a caption. */
  datatype Badge = Badge(emoji: string, caption: string)

  /** Bands checked from the top: 8 and above, 6 and above, 4 and above, the rest. */
  function BadgeFor(avgScore: int): (b: Badge)
    ensures b.caption == "Excellent!" <==> avgScore >= 8
    ensures b.caption == "Good!" <==> 6 <= avgScore < 8
    ensures b.caption == "Keep Going!" <==> 4 <= avgScore < 6
    ensures b.caption == "Start Now!" <==> avgScore < 4
  {
    if avgScore >= 8 then Badge("\U{1F525}", "Excellent!")
    else if avgScore >= 6 then Badge("\U{2B50}", "Good!")
    else if avgScore >= 4 then Badge("\U{1F44D}", "Keep Going!")
    else Badge("\U{1F3AF}", "Start Now!")
  }

  /** The badge's place in the ranking, 0 for the lowest band. */
  function Rank(b: Badge): nat
  {
    if b.caption == "Excellent!" then 3
    else if b.caption == "Good!" then 2
    else if b.caption == "Keep Going!" then 1
    else 0
  }

  /** A higher average never earns a lower badge. */
  lemma BadgeMonotone(a: int, b: int)
    requires a <= b
    ensures Rank(BadgeFor(a)) <= Rank(BadgeFor(b))
  {
  }
}
