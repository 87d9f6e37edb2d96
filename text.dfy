/**
 * The JavaScript string operations the application uses, on strings of
 * characters: `trim`, `toLowerCase` (ASCII letters only), `includes`,
 * `split`, `substring` and the decimal rendering of a counter.
 */
module Text {

  /**
   * The characters `String.prototype.trim` and the regular-expression class
   * `\s` treat as white space: ECMAScript's WhiteSpace (tab, vertical tab,
   * form feed, space, no-break space, byte order mark and the space
   * separators of Unicode category Zs) and LineTerminator.
   */
  predicate IsSpace(c: char) {
    c == '\t' || c == '\n' || c == '\U{000B}' || c == '\U{000C}' || c == '\r' || c == ' '
    || c == '\U{00A0}' || c == '\U{1680}' || ('\U{2000}' <= c <= '\U{200A}')
    || c == '\U{2028}' || c == '\U{2029}' || c == '\U{202F}' || c == '\U{205F}'
    || c == '\U{3000}' || c == '\U{FEFF}'
  }

  predicate AllSpace(s: string) {
    forall i :: 0 <= i < |s| ==> IsSpace(s[i])
  }

  /** Neither end of `s` is white space. */
  predicate IsTrimmed(s: string) {
    s == [] || (!IsSpace(s[0]) && !IsSpace(s[|s| - 1]))
  }

  /** Number of white-space characters at the start of `s`. */
  function LeadingSpace(s: string): (n: nat)
    ensures n <= |s| && AllSpace(s[..n])
    ensures n < |s| ==> !IsSpace(s[n])
  {
    if s == [] || !IsSpace(s[0]) then 0 else 1 + LeadingSpace(s[1..])
  }

  /** Number of white-space characters at the end of `s`. */
  function TrailingSpace(s: string): (n: nat)
    ensures n <= |s| && AllSpace(s[|s| - n..])
    ensures n < |s| ==> !IsSpace(s[|s| - 1 - n])
  {
    if s == [] || !IsSpace(s[|s| - 1]) then 0 else 1 + TrailingSpace(s[..|s| - 1])
  }

  /** `s.trim()`: `s` without its leading and trailing white space. */
  function Trim(s: string): (r: string)
    ensures IsTrimmed(r) && |r| <= |s|
  {
    var a := LeadingSpace(s);
    if a == |s| then
      []
    else
      var b := TrailingSpace(s);
      assert b < |s| - a;
      s[a..|s| - b]
  }

  /** The trimmed string is empty exactly when `s` is all white space. */
  lemma TrimEmptyIff(s: string)
    ensures Trim(s) == [] <==> AllSpace(s)
  {
    var a := LeadingSpace(s);
    if a == |s| {
      assert s[..a] == s;
    } else {
      assert !IsSpace(s[a]);
    }
  }

  /**
   * `trim` removes exactly the white space at both ends: the result is the
   * slice of `s` between a white-space prefix and a white-space suffix, and
   * it neither starts nor ends with white space, so those runs are maximal.
   */
  lemma TrimStripsSurroundingSpace(s: string)
    ensures IsTrimmed(Trim(s))
    ensures exists i, j :: 0 <= i <= j <= |s| && Trim(s) == s[i..j] && AllSpace(s[..i]) && AllSpace(s[j..])
  {
    var a := LeadingSpace(s);
    if a == |s| {
      assert s[..a] == s && Trim(s) == s[a..a];
      assert AllSpace(s[a..]);
    } else {
      var b := TrailingSpace(s);
      assert Trim(s) == s[a..|s| - b];
    }
  }

  /** Trimming only removes characters: one absent before is absent after. */
  lemma TrimKeepsAbsent(s: string, c: char)
    requires c !in s
    ensures c !in Trim(s)
  {
    var a := LeadingSpace(s);
    if a < |s| {
      var t := s[a..|s| - TrailingSpace(s)];
      assert Trim(s) == t;
      forall k | 0 <= k < |t| ensures t[k] != c {
        assert t[k] == s[a + k];
      }
    }
  }

  /** A trimmed string is its own trim, so trimming twice is trimming once. */
  lemma TrimOfTrimmed(s: string)
    requires IsTrimmed(s)
    ensures Trim(s) == s
  {
    if s != [] {
      assert LeadingSpace(s) == 0;
      assert TrailingSpace(s) == 0;
    }
  }

  lemma TrimIdempotent(s: string)
    ensures Trim(Trim(s)) == Trim(s)
  {
    TrimOfTrimmed(Trim(s));
  }

  /** Appending white space does not change the trim. */
  lemma {:induction false} TrimAbsorbsTrailingSpace(s: string, ws: string)
    requires AllSpace(ws)
    ensures Trim(s + ws) == Trim(s)
    decreases |ws|
  {
    if ws != [] {
      var init := ws[..|ws| - 1];
      var u := s + ws;
      assert u[|u| - 1] == ws[|ws| - 1];
      assert IsSpace(u[|u| - 1]);
      assert u[..|u| - 1] == s + init;
      assert AllSpace(init) by {
        forall k | 0 <= k < |init| ensures IsSpace(init[k]) { assert init[k] == ws[k]; }
      }
      TrimDropsLastSpace(u);
      TrimAbsorbsTrailingSpace(s, init);
    } else {
      assert s + ws == s;
    }
  }

  /** Dropping a white-space last character does not change the trim. */
  lemma TrimDropsLastSpace(s: string)
    requires s != [] && IsSpace(s[|s| - 1])
    ensures Trim(s) == Trim(s[..|s| - 1])
  {
    var u := s[..|s| - 1];
    var a := LeadingSpace(s);
    if a == |s| {
      LeadingAllSpace(s);
      LeadingAllSpace(u);
    } else {
      LeadingPrefix(s);
      assert a < |u| by { assert !IsSpace(s[a]); }
      var b := TrailingSpace(u);
      assert TrailingSpace(s) == 1 + b;
      assert Trim(s) == s[a..|s| - 1 - b];
      assert Trim(u) == u[a..|u| - b];
      SliceOfPrefix(s, |s| - 1, a, |u| - b);
    }
  }

  lemma SliceOfPrefix(s: string, n: nat, i: nat, j: nat)
    requires i <= j <= n <= |s|
    ensures s[..n][i..j] == s[i..j]
  {
  }

  /** The leading run covers the whole string exactly when it is all white space. */
  lemma LeadingAllSpace(s: string)
    ensures LeadingSpace(s) == |s| <==> AllSpace(s)
  {
    var n := LeadingSpace(s);
    assert s[..|s|] == s;
    if n < |s| {
      assert !IsSpace(s[n]);
    }
  }

  /** Leading white space does not depend on a white-space last character when some character is not space. */
  lemma LeadingPrefix(s: string)
    requires s != [] && IsSpace(s[|s| - 1]) && LeadingSpace(s) < |s|
    ensures LeadingSpace(s[..|s| - 1]) == LeadingSpace(s)
  {
    if IsSpace(s[0]) {
      assert s[1..][..|s[1..]| - 1] == s[..|s| - 1][1..];
      LeadingPrefix(s[1..]);
    }
  }

  /** `toLowerCase` on one character; only the ASCII letters A-Z change. */
  function LowerChar(c: char): (d: char)
    ensures 'A' <= c <= 'Z' ==> d as int == c as int + 32
    ensures !('A' <= c <= 'Z') ==> d == c
  {
    if 'A' <= c <= 'Z' then (c as int + 32) as char else c
  }

  function Lower(s: string): (r: string)
    ensures |r| == |s| && forall i :: 0 <= i < |s| ==> r[i] == LowerChar(s[i])
  {
    seq(|s|, i requires 0 <= i < |s| => LowerChar(s[i]))
  }

  lemma LowerIdempotent(s: string)
    ensures Lower(Lower(s)) == Lower(s)
  {
  }

  /** `s.includes(pat)`. */
  predicate Includes(s: string, pat: string) {
    exists i :: 0 <= i <= |s| && pat <= s[i..]
  }

  /** `s.split(sep)`: the pieces between occurrences of `sep`; at least one piece. */
  function Split(s: string, sep: char): (pieces: seq<string>)
    ensures |pieces| >= 1
    decreases |s|, 1
  {
    if sep !in s then [s] else SplitAt(s, sep, IndexOf(s, sep))
  }

  /** `Split` of a string whose first separator is at `i`. */
  function SplitAt(s: string, sep: char, i: nat): (pieces: seq<string>)
    requires i < |s|
    ensures |pieces| >= 1
    decreases |s|, 0
  {
    [s[..i]] + Split(s[i + 1..], sep)
  }

  /** No piece of a split contains the separator. */
  lemma {:induction false} SplitPiecesLackSep(s: string, sep: char)
    ensures forall p :: p in Split(s, sep) ==> sep !in p
    decreases |s|
  {
    if sep in s {
      var i := IndexOf(s, sep);
      SplitUnfold(s, sep);
      SplitPiecesLackSep(s[i + 1..], sep);
    }
  }

  /** A string with the separator splits into the text before its first occurrence, then the split of the rest. */
  lemma SplitUnfold(s: string, sep: char)
    requires sep in s
    ensures Split(s, sep) == [s[..IndexOf(s, sep)]] + Split(s[IndexOf(s, sep) + 1..], sep)
  {
  }

  /** A string without the separator is its own single piece. */
  lemma SplitNone(s: string, sep: char)
    requires sep !in s
    ensures Split(s, sep) == [s]
  {
  }

  /** `pieces.join(sep)`. */
  function Join(pieces: seq<string>, sep: char): string
    requires |pieces| >= 1
  {
    if |pieces| == 1 then pieces[0] else pieces[0] + [sep] + Join(pieces[1..], sep)
  }

  /** Joining the pieces of a split gives back the original string. */
  lemma {:induction false} JoinSplit(s: string, sep: char)
    ensures Join(Split(s, sep), sep) == s
    decreases |s|
  {
    if sep !in s {
      SplitNone(s, sep);
    } else {
      var i := IndexOf(s, sep);
      var rest := s[i + 1..];
      SplitUnfold(s, sep);
      JoinCons(s[..i], Split(rest, sep), sep);
      JoinSplit(rest, sep);
      assert s == s[..i] + [sep] + rest;
    }
  }

  /** Joining a piece in front of other pieces puts the separator between them. */
  lemma JoinCons(head: string, pieces: seq<string>, sep: char)
    requires |pieces| >= 1
    ensures Join([head] + pieces, sep) == head + [sep] + Join(pieces, sep)
  {
    assert ([head] + pieces)[1..] == pieces;
  }

  /** Splitting at a separator placed between `a` and `b` gives the pieces of `a`, then those of `b`. */
  lemma {:induction false} SplitAppend(a: string, b: string, sep: char)
    ensures Split(a + [sep] + b, sep) == Split(a, sep) + Split(b, sep)
    decreases |a|
  {
    if sep !in a {
      SplitAtFirst(a, b, sep);
      SplitNone(a, sep);
    } else {
      var i := IndexOf(a, sep);
      var rest := a[i + 1..];
      SplitAfterFirst(a, b, sep);
      SplitUnfold(a, sep);
      SplitAppend(rest, b, sep);
      AppendAssoc([a[..i]], Split(rest, sep), Split(b, sep));
    }
  }

  lemma AppendAssoc<T>(p: seq<T>, q: seq<T>, r: seq<T>)
    ensures p + (q + r) == (p + q) + r
  {
  }

  /** With no separator in `a`, `a` is the first piece and the rest is the split of `b`. */
  lemma SplitAtFirst(a: string, b: string, sep: char)
    requires sep !in a
    ensures Split(a + [sep] + b, sep) == [a] + Split(b, sep)
  {
    var s := a + [sep] + b;
    assert s[|a|] == sep;
    IndexOfIsFirst(s, sep, |a|);
    assert s[..|a|] == a && s[|a| + 1..] == b;
    SplitUnfold(s, sep);
  }

  /** A separator in `a` cuts the joined string where it cuts `a`. */
  lemma SplitAfterFirst(a: string, b: string, sep: char)
    requires sep in a
    ensures var i := IndexOf(a, sep);
            Split(a + [sep] + b, sep) == [a[..i]] + Split(a[i + 1..] + [sep] + b, sep)
  {
    var s := a + [sep] + b;
    var i := IndexOf(a, sep);
    IndexOfAppend(a, [sep] + b, sep);
    assert s == a + ([sep] + b);
    assert s[i + 1..] == a[i + 1..] + [sep] + b;
    assert s[..i] == a[..i];
    SplitUnfold(s, sep);
  }

  /** The first occurrence in `a` is the first occurrence in `a + t`. */
  lemma IndexOfAppend(a: string, t: string, c: char)
    requires c in a
    ensures c in a + t && IndexOf(a + t, c) == IndexOf(a, c)
  {
    var i := IndexOf(a, c);
    assert (a + t)[i] == c;
    IndexOfIsFirst(a + t, c, i);
  }

  /** Index of the first occurrence of `c` in `s`. */
  function IndexOf(s: string, c: char): (i: nat)
    requires c in s
    ensures i < |s| && s[i] == c && c !in s[..i]
  {
    if s[0] == c then 0 else 1 + IndexOf(s[1..], c)
  }

  /** Index of the last occurrence of `c` in `s`. */
  function LastIndexOf(s: string, c: char): (i: nat)
    requires c in s
    ensures i < |s| && s[i] == c && c !in s[i + 1..]
  {
    if s[|s| - 1] == c then |s| - 1 else LastIndexOf(s[..|s| - 1], c)
  }

  /** No occurrence of `c` comes before IndexOf. */
  lemma {:induction false} IndexOfIsFirst(s: string, c: char, a: nat)
    requires a < |s| && s[a] == c
    ensures IndexOf(s, c) <= a
  {
    if s[0] != c {
      IndexOfIsFirst(s[1..], c, a - 1);
    }
  }

  /** No occurrence of `c` comes after LastIndexOf. */
  lemma {:induction false} LastIndexOfIsLast(s: string, c: char, b: nat)
    requires b < |s| && s[b] == c
    ensures b <= LastIndexOf(s, c)
  {
    if s[|s| - 1] != c {
      LastIndexOfIsLast(s[..|s| - 1], c, b);
    }
  }

  /** `s.substring(0, n)`: the first `n` characters, or all of `s` when shorter. */
  function Prefix(s: string, n: nat): (r: string)
    ensures |r| == if |s| <= n then |s| else n
    ensures r == s[..|r|]
  {
    if |s| <= n then s else s[..n]
  }

  /** Decimal digits of `n` without leading zeros, as template literals render a count. */
  function NatToString(n: nat): (r: string)
    ensures |r| >= 1 && forall i :: 0 <= i < |r| ==> '0' <= r[i] <= '9'
    ensures |r| > 1 ==> r[0] != '0'
  {
    if n < 10 then [Digit(n)] else NatToString(n / 10) + [Digit(n % 10)]
  }

  function Digit(d: nat): (c: char)
    requires d < 10
    ensures '0' <= c <= '9' && c as int - '0' as int == d
  {
    ('0' as int + d) as char
  }

  /** The number a string of decimal digits denotes. */
  function DigitsValue(s: string): nat
    requires forall i :: 0 <= i < |s| ==> '0' <= s[i] <= '9'
  {
    if s == [] then 0 else 10 * DigitsValue(s[..|s| - 1]) + (s[|s| - 1] as int - '0' as int)
  }

  /** Reading back the rendered digits gives the number. */
  lemma {:induction false} NatToStringRoundTrip(n: nat)
    ensures DigitsValue(NatToString(n)) == n
  {
    if n >= 10 {
      NatToStringRoundTrip(n / 10);
      var s := NatToString(n);
      assert s[..|s| - 1] == NatToString(n / 10);
    }
  }

  /** Distinct numbers render as distinct strings. */
  lemma NatToStringInjective(m: nat, n: nat)
    requires NatToString(m) == NatToString(n)
    ensures m == n
  {
    NatToStringRoundTrip(m);
    NatToStringRoundTrip(n);
  }
}
