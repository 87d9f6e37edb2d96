/**
 * The review page (frontend/src/App.jsx): the code being edited, the last
 * review, and the bounded history of past reviews, newest first.
 * The request itself, toasts, the loading flag and localStorage are not
 * modelled; the server's reply and `Date.now()` are parameters.
 */
module History {
  import opened Wrappers
  import opened ReviewTypes
  import Text
  import Auth

  /** One saved review.  `review` is `None` for an entry stored without one. */
  datatype HistoryItem = HistoryItem(
    id: int,
    preview: string,
    language: string,
    score: Option<int>,
    timestamp: string,
    fullCode: string,
    review: Option<Review>,
    fileName: Option<string>)

  /** What `fetch` to `/api/review` comes back with: a review, or an error that is thrown. */
  datatype Reply = Ok(review: Review, timestamp: string) | Failed(message: string)

  const MaxHistory: nat := 20
  const PreviewLength: nat := 100
  const Ellipsis: string := "..."

  function Min(a: nat, b: nat): nat
  {
    if a <= b then a else b
  }

  /** `code.substring(0, 100) + (code.length > 100 ? '...' : '')`. */
  function Preview(code: string): string
  {
    Text.Prefix(code, PreviewLength) + (if |code| > PreviewLength then Ellipsis else "")
  }

  /**
   * The preview is the whole code when it has at most 100 characters, and
   * otherwise its first 100 characters followed by "...".
   */
  lemma PreviewShape(code: string)
    ensures |code| <= PreviewLength ==> Preview(code) == code
    ensures |code| > PreviewLength ==>
      |Preview(code)| == PreviewLength + 3
      && Preview(code)[..PreviewLength] == code[..PreviewLength]
      && Preview(code)[PreviewLength..] == Ellipsis
  {
    if |code| > PreviewLength {
      var p := Preview(code);
      assert p == code[..PreviewLength] + Ellipsis;
      assert p[..PreviewLength] == code[..PreviewLength];
    }
  }

  /** `.slice(0, 20)`. */
  function Cap(s: seq<HistoryItem>): seq<HistoryItem>
  {
    s[..Min(MaxHistory, |s|)]
  }

  /** `[newHistoryItem, ...history].slice(0, 20)`. */
  function PrependCapped(item: HistoryItem, history: seq<HistoryItem>): seq<HistoryItem>
  {
    Cap([item] + history)
  }

  /**
   * The new item comes first, the old items follow in their order, and the
   * list is cut at 20: exactly the oldest entry falls off a full history.
   */
  lemma PrependCappedShape(item: HistoryItem, history: seq<HistoryItem>)
    ensures |PrependCapped(item, history)| == Min(MaxHistory, |history| + 1)
    ensures PrependCapped(item, history)[0] == item
    ensures forall i :: 1 <= i < |PrependCapped(item, history)| ==> PrependCapped(item, history)[i] == history[i - 1]
  {
  }

  /** Capping after prepending a capped list is capping once. */
  lemma CapAppend(a: seq<HistoryItem>, b: seq<HistoryItem>)
    ensures Cap(a + Cap(b)) == Cap(a + b)
  {
    var l, r := Cap(a + Cap(b)), Cap(a + b);
    assert |l| == |r|;
    forall i | 0 <= i < |l| ensures l[i] == r[i] {
      if i >= |a| {
        assert l[i] == Cap(b)[i - |a|];
        assert r[i] == b[i - |a|];
      }
    }
  }

  function Reverse<T>(s: seq<T>): (r: seq<T>)
    ensures |r| == |s|
  {
    if s == [] then [] else Reverse(s[1..]) + [s[0]]
  }

  lemma {:induction false} ReverseAt<T>(s: seq<T>)
    ensures forall i :: 0 <= i < |s| ==> Reverse(s)[i] == s[|s| - 1 - i]
  {
    if s != [] {
      ReverseAt(s[1..]);
      forall i | 0 <= i < |s| ensures Reverse(s)[i] == s[|s| - 1 - i] {
        if i < |s| - 1 {
          assert Reverse(s)[i] == Reverse(s[1..])[i];
          assert s[1..][|s| - 2 - i] == s[|s| - 1 - i];
        }
      }
    }
  }

  /** The history after a series of successful reviews, the earliest first. */
  function HistoryAfter(history: seq<HistoryItem>, items: seq<HistoryItem>): seq<HistoryItem>
    decreases |items|
  {
    if items == [] then history else HistoryAfter(PrependCapped(items[0], history), items[1..])
  }

  /**
   * After one or more successful reviews the history holds the most recent
   * entries, newest first, at most 20 of them.
   */
  lemma {:induction false} HistoryAfterRecent(history: seq<HistoryItem>, items: seq<HistoryItem>)
    requires items != []
    ensures HistoryAfter(history, items) == Cap(Reverse(items) + history)
    ensures |HistoryAfter(history, items)| <= MaxHistory
    decreases |items|
  {
    var x, rest := items[0], items[1..];
    assert Reverse(items) == Reverse(rest) + [x];
    if rest == [] {
      assert Reverse(items) == [x];
    } else {
      HistoryAfterRecent(PrependCapped(x, history), rest);
      CapAppend(Reverse(rest), [x] + history);
      assert Reverse(rest) + ([x] + history) == Reverse(items) + history;
    }
  }

  /** The entry a successful review saves (App.jsx lines 105-114). */
  function NewItem(now: int, code: string, language: string, reply: Reply, fileName: Option<string>): HistoryItem
    requires reply.Ok?
  {
    HistoryItem(now, Preview(code), language, reply.review.score, reply.timestamp, code, Some(reply.review), fileName)
  }

  /** Non-blank code, the condition `code.trim()` tests. */
  predicate HasCode(code: string)
  {
    Text.Trim(code) != ""
  }

  /** The state of `AppContent` that reviews and the history touch. */
  class AppContent {
    var code: string
    var language: string
    var review: Option<Review>
    var history: seq<HistoryItem>
    var fileName: Option<string>
    const auth: Auth.AuthStore

    /** The first render: the starting code, JavaScript, no review, and the stored history. */
    constructor (auth: Auth.AuthStore, initialCode: string, saved: seq<HistoryItem>)
      ensures this.auth == auth
      ensures code == initialCode && language == "javascript" && review == None
      ensures history == saved && fileName == None
    {
      this.auth := auth;
      code := initialCode;
      language := "javascript";
      review := None;
      history := saved;
      fileName := None;
    }

    /** `handleFileLoad`: a dropped file's content, language and name replace the editor's. */
    method HandleFileLoad(content: string, detected: string, name: string)
      modifies this
      ensures code == content && language == detected && fileName == Some(name)
      ensures review == old(review) && history == old(history)
    {
      code := content;
      language := detected;
      fileName := Some(name);
    }

    /**
     * `handleReview`.  Blank code is refused and nothing changes.  Otherwise
     * the old review is cleared; a failed request leaves the history as it
     * was; a successful one shows the review, counts it in the signed-in
     * user's stats, saves a new entry in front of the history (at most 20
     * kept) and forgets the file name.
     */
    method HandleReview(reply: Reply, now: int)
      modifies this, auth
      ensures old(auth.Valid()) ==> auth.Valid()
      ensures code == old(code) && language == old(language)
      ensures !HasCode(old(code)) ==> unchanged(this) && unchanged(auth)
      ensures HasCode(old(code)) && reply.Failed? ==>
        review == None && history == old(history) && fileName == old(fileName) && unchanged(auth)
      ensures HasCode(old(code)) && reply.Ok? ==>
        review == Some(reply.review)
        && history == PrependCapped(NewItem(now, old(code), old(language), reply, old(fileName)), old(history))
        && |history| <= MaxHistory
        && fileName == None
      ensures HasCode(old(code)) && reply.Ok? && old(auth.user).None? ==> unchanged(auth)
      ensures HasCode(old(code)) && reply.Ok? && old(auth.user).Some? ==>
        auth.user == Some(Auth.WithReview(old(auth.user).value, reply.review))
        && auth.users == Auth.ReplaceById(old(auth.users), old(auth.user).value.id, auth.user.value)
    {
      if !HasCode(code) {
        return;
      }
      review := None;
      match reply
      case Failed(_) =>
      case Ok(r, _) =>
        review := Some(r);
        if auth.user.Some? {
          auth.UpdateStats(r);
        }
        var item := NewItem(now, code, language, reply, fileName);
        PrependCappedShape(item, history);
        history := PrependCapped(item, history);
        fileName := None;
    }

    /** `loadFromHistory`: the entry's code, language and review come back; the history stays. */
    method LoadFromHistory(item: HistoryItem)
      modifies this
      ensures code == item.fullCode && language == item.language && review == item.review
      ensures history == old(history) && fileName == old(fileName)
    {
      code := item.fullCode;
      language := item.language;
      review := item.review;
    }

    /** `clearHistory`: the history is empty; nothing else changes. */
    method ClearHistory()
      modifies this
      ensures history == []
      ensures code == old(code) && language == old(language) && review == old(review) && fileName == old(fileName)
    {
      history := [];
    }
  }
}
