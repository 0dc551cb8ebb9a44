/**
 * The two derived fields of a scraped article: how often the search term
 * occurs (case-insensitively) in its title and description, and whether
 * its text mentions an amount of money.
 *
 * Case folding is ASCII only (`A`..`Z` to `a`..`z`) and a digit is an ASCII
 * digit; Python's Unicode-aware `str.lower` and regex `\d` are not modelled.
 */
module TextSignals {

  // ---------------------------------------------------------------------
  // Case folding
  // ---------------------------------------------------------------------

  function LowerChar(c: char): char
  {
    if 'A' <= c <= 'Z' then (c as int + 32) as char else c
  }

  /** `s.lower()`, restricted to ASCII letters. */
  function Lower(s: string): (r: string)
    ensures |r| == |s|
  {
    seq(|s|, i requires 0 <= i < |s| => LowerChar(s[i]))
  }

  // ---------------------------------------------------------------------
  // Python's str.count
  // ---------------------------------------------------------------------

  /**
   * `s.count(t)`: the number of non-overlapping occurrences of `t` in `s`,
   * found scanning left to right; after a match the scan resumes right
   * after it. An empty `t` occurs at each of the `|s| + 1` positions.
   */
  function Count(s: string, t: string): nat
    decreases |s|
  {
    if t == [] then |s| + 1
    else if |s| < |t| then 0
    else if s[..|t|] == t then 1 + Count(s[|t|..], t)
    else Count(s[1..], t)
  }

  /** One step of `Count` on a text at least as long as the non-empty term. */
  lemma CountStep(r: string, t: string)
    requires t != [] && |t| <= |r|
    ensures Count(r, t) == if r[..|t|] == t then 1 + Count(r[|t|..], t) else Count(r[1..], t)
  {
  }

  /** A non-empty `t` cannot occur more often than it fits into `s`. */
  lemma {:induction false} CountBound(s: string, t: string)
    requires t != []
    ensures Count(s, t) * |t| <= |s|
    decreases |s|
  {
    if |s| >= |t| {
      CountStep(s, t);
      if s[..|t|] == t {
        var rest := s[|t|..];
        CountBound(rest, t);
        OneMore(Count(rest, t), |t|, |rest|);
      } else {
        CountBound(s[1..], t);
      }
    }
  }

  /** One more match of length `n` still fits after `m` characters more. */
  lemma OneMore(c: nat, n: nat, m: nat)
    requires c * n <= m
    ensures (1 + c) * n <= n + m
  {
  }

  ghost predicate OccursAt(s: string, t: string, p: int)
  {
    0 <= p && p + |t| <= |s| && s[p..p + |t|] == t
  }

  /** The start positions at or after `i` that the left-to-right count matches. */
  ghost function Scan(s: string, t: string, i: nat): seq<nat>
    requires t != [] && i <= |s|
    decreases |s| - i
  {
    if |s| - i < |t| then []
    else if s[i..i + |t|] == t then [i] + Scan(s, t, i + |t|)
    else Scan(s, t, i + 1)
  }

  lemma {:induction false} ScanLength(s: string, t: string, i: nat)
    requires t != [] && i <= |s|
    ensures |Scan(s, t, i)| == Count(s[i..], t)
    decreases |s| - i
  {
    var r := s[i..];
    if |s| - i < |t| {
      assert |r| < |t|;
    } else {
      CountStep(r, t);
      assert r[..|t|] == s[i..i + |t|];
      if s[i..i + |t|] == t {
        assert r[|t|..] == s[i + |t|..];
        ScanLength(s, t, i + |t|);
      } else {
        assert r[1..] == s[i + 1..];
        ScanLength(s, t, i + 1);
      }
    }
  }

  /** The scan from `i` unfolded once. */
  lemma ScanStep(s: string, t: string, i: nat)
    requires t != [] && i <= |s|
    ensures |s| - i < |t| ==> Scan(s, t, i) == []
    ensures |s| - i >= |t| && OccursAt(s, t, i) ==> Scan(s, t, i) == [i] + Scan(s, t, i + |t|)
    ensures |s| - i >= |t| && !OccursAt(s, t, i) ==> Scan(s, t, i) == Scan(s, t, i + 1)
  {
  }

  /** Putting an occurrence `i` in front of occurrences at or after `i + |t|`. */
  lemma ConsSound(s: string, t: string, i: nat, P': seq<nat>)
    requires OccursAt(s, t, i)
    requires forall k :: 0 <= k < |P'| ==> i + |t| <= P'[k] && OccursAt(s, t, P'[k])
    ensures forall k :: 0 <= k < |[i] + P'| ==> i <= ([i] + P')[k] && OccursAt(s, t, ([i] + P')[k])
  {
    var P := [i] + P';
    forall k | 0 <= k < |P| ensures i <= P[k] && OccursAt(s, t, P[k]) {
      if k > 0 {
        var j := k - 1;
        assert P[k] == P'[j];
      }
    }
  }

  /** Putting `i` in front of positions `n` apart, the first of them at least `i + n`. */
  lemma ConsDisjoint(i: nat, P': seq<nat>, n: nat)
    requires forall k :: 0 <= k < |P'| - 1 ==> P'[k] + n <= P'[k + 1]
    requires P' != [] ==> i + n <= P'[0]
    ensures forall k :: 0 <= k < |[i] + P'| - 1 ==> ([i] + P')[k] + n <= ([i] + P')[k + 1]
  {
    var P := [i] + P';
    forall k | 0 <= k < |P| - 1 ensures P[k] + n <= P[k + 1] {
      assert P[k + 1] == P'[k];
      if k > 0 {
        var j := k - 1;
        assert P[k] == P'[j];
      }
    }
  }

  /** A match at `i` of length `n` covers what lies before `i + n`; the rest covers the others. */
  lemma ConsCovers(s: string, t: string, i: nat, P': seq<nat>)
    requires forall q :: i + |t| <= q && OccursAt(s, t, q) ==> Covered(P', q, |t|)
    ensures forall q :: i <= q && OccursAt(s, t, q) ==> Covered([i] + P', q, |t|)
  {
    var P := [i] + P';
    forall q | i <= q && OccursAt(s, t, q) ensures Covered(P, q, |t|) {
      if q < i + |t| {
        assert P[0] <= q < P[0] + |t|;
      } else {
        assert Covered(P', q, |t|);
        var k' :| 0 <= k' < |P'| && P'[k'] <= q < P'[k'] + |t|;
        assert P[k' + 1] == P'[k'];
      }
    }
  }

  /** Each scanned position at or after `i` is an occurrence of `t`. */
  lemma {:induction false} ScanSound(s: string, t: string, i: nat)
    requires t != [] && i <= |s|
    ensures forall k :: 0 <= k < |Scan(s, t, i)| ==> i <= Scan(s, t, i)[k] && OccursAt(s, t, Scan(s, t, i)[k])
    decreases |s| - i
  {
    ScanStep(s, t, i);
    if |s| - i >= |t| {
      if OccursAt(s, t, i) {
        ScanSound(s, t, i + |t|);
        ConsSound(s, t, i, Scan(s, t, i + |t|));
      } else {
        ScanSound(s, t, i + 1);
      }
    }
  }

  /** The scan starting at `i` finds nothing before `i`. */
  lemma {:induction false} ScanFirst(s: string, t: string, i: nat)
    requires t != [] && i <= |s|
    ensures Scan(s, t, i) != [] ==> i <= Scan(s, t, i)[0]
    decreases |s| - i
  {
    ScanStep(s, t, i);
    if |s| - i >= |t| && !OccursAt(s, t, i) {
      ScanFirst(s, t, i + 1);
    }
  }

  /** Consecutive scanned positions are at least `|t|` apart: the matches do not overlap. */
  lemma {:induction false} ScanDisjoint(s: string, t: string, i: nat)
    requires t != [] && i <= |s|
    ensures forall k :: 0 <= k < |Scan(s, t, i)| - 1 ==> Scan(s, t, i)[k] + |t| <= Scan(s, t, i)[k + 1]
    decreases |s| - i
  {
    ScanStep(s, t, i);
    if |s| - i >= |t| {
      if OccursAt(s, t, i) {
        ScanDisjoint(s, t, i + |t|);
        ScanFirst(s, t, i + |t|);
        ConsDisjoint(i, Scan(s, t, i + |t|), |t|);
      } else {
        ScanDisjoint(s, t, i + 1);
      }
    }
  }

  /** Position `q` lies inside one of the matches in `P`, each `len` long. */
  ghost predicate Covered(P: seq<nat>, q: int, len: nat)
  {
    exists k :: 0 <= k < |P| && P[k] <= q < P[k] + len
  }

  /** Every occurrence at or after `i` starts inside a scanned match. */
  lemma {:induction false} ScanCovers(s: string, t: string, i: nat)
    requires t != [] && i <= |s|
    ensures forall q :: i <= q && OccursAt(s, t, q) ==> Covered(Scan(s, t, i), q, |t|)
    decreases |s| - i
  {
    ScanStep(s, t, i);
    if |s| - i >= |t| {
      if OccursAt(s, t, i) {
        ScanCovers(s, t, i + |t|);
        ConsCovers(s, t, i, Scan(s, t, i + |t|));
      } else {
        ScanCovers(s, t, i + 1);
        forall q | i <= q && OccursAt(s, t, q) ensures Covered(Scan(s, t, i), q, |t|) {
          assert q != i;
        }
      }
    }
  }

  /**
   * What `Count` counts: the positions of a left-to-right scan, each an
   * occurrence of `t`, no two overlapping, and every occurrence of `t`
   * starts inside one of them (it was skipped only because it overlaps an
   * earlier counted match).
   */
  lemma CountIsLeftToRightScan(s: string, t: string)
    requires t != []
    ensures var P := Scan(s, t, 0);
      && |P| == Count(s, t)
      && (forall k :: 0 <= k < |P| ==> OccursAt(s, t, P[k]))
      && (forall k :: 0 <= k < |P| - 1 ==> P[k] + |t| <= P[k + 1])
      && (forall q :: OccursAt(s, t, q) ==> Covered(P, q, |t|))
  {
    ScanLength(s, t, 0);
    assert s[0..] == s;
    ScanSound(s, t, 0);
    ScanDisjoint(s, t, 0);
    ScanCovers(s, t, 0);
  }

  /** Overlapping occurrences are counted once: `"aaa".count("aa") == 1`. */
  lemma CountIsNonOverlapping()
    ensures Count("aaa", "aa") == 1
  {
    assert "aaa"[..2] == "aa";
    assert "aaa"[2..] == "a";
  }

  // ---------------------------------------------------------------------
  // search_count
  // ---------------------------------------------------------------------

  lemma SumBound(a: nat, b: nat, k: nat, x: nat, y: nat)
    requires a * k <= x && b * k <= y
    ensures (a + b) * k <= x + y
  {
    assert (a + b) * k == a * k + b * k;
  }

  /**
   * `title.lower().count(term.lower()) + description.lower().count(term.lower())`.
   * The two fields are counted separately, so an occurrence straddling the
   * end of the title and the start of the description is not counted.
   */
  function SearchCount(title: string, description: string, term: string): (n: nat)
    ensures term == [] ==> n == |title| + |description| + 2
  {
    Count(Lower(title), Lower(term)) + Count(Lower(description), Lower(term))
  }

  lemma MulCancel(a: int, b: int, k: int)
    requires k > 0 && a * k < b * k
    ensures a < b
  {
    assert (b - a) * k == b * k - a * k;
  }

  lemma DivBound(n: nat, k: nat, m: nat)
    requires k > 0 && n * k <= m
    ensures n <= m / k
  {
    var q := m / k;
    assert m == q * k + m % k;
    assert (q + 1) * k == q * k + k;
    MulCancel(n, q + 1, k);
  }

  /**
   * For a non-empty term the count times the term's length is at most the
   * length of the two texts, so the count is at most
   * `(|title| + |description|) / |term|`.
   */
  lemma SearchCountBound(title: string, description: string, term: string)
    requires term != []
    ensures SearchCount(title, description, term) * |term| <= |title| + |description|
    ensures SearchCount(title, description, term) <= (|title| + |description|) / |term|
  {
    var a := Count(Lower(title), Lower(term));
    var b := Count(Lower(description), Lower(term));
    CountBound(Lower(title), Lower(term));
    CountBound(Lower(description), Lower(term));
    SumBound(a, b, |term|, |title|, |description|);
    DivBound(a + b, |term|, |title| + |description|);
  }

  /** The count does not change when any of the three texts changes case. */
  lemma SearchCountIgnoresCase(title: string, description: string, term: string,
                               title': string, description': string, term': string)
    requires Lower(title) == Lower(title') && Lower(description) == Lower(description')
    requires Lower(term) == Lower(term')
    ensures SearchCount(title, description, term) == SearchCount(title', description', term')
  {
  }

  /** A text whose upper-case letters are those of `s` lowered is `Lower(s)`. */
  lemma LowerEq(s: string, r: string)
    requires |r| == |s| && forall i :: 0 <= i < |s| ==> r[i] == LowerChar(s[i])
    ensures Lower(s) == r
  {
  }

  /** A prefix none of whose characters can start `t` is skipped. */
  lemma {:induction false} CountSkip(p: string, r: string, t: string)
    requires t != [] && forall i :: 0 <= i < |p| ==> p[i] != t[0]
    ensures Count(p + r, t) == Count(r, t)
    decreases |p|
  {
    if p == [] {
      assert p + r == r;
    } else {
      var pr := p + r;
      assert pr[1..] == p[1..] + r;
      CountSkip(p[1..], r, t);
      if |pr| >= |t| {
        CountStep(pr, t);
        assert pr[..|t|][0] != t[0];
      }
    }
  }

  /** A match at the front counts one, and the scan resumes after it. */
  lemma CountTake(r: string, t: string)
    requires t != []
    ensures Count(t + r, t) == 1 + Count(r, t)
  {
    CountStep(t + r, t);
    assert (t + r)[..|t|] == t;
    assert (t + r)[|t|..] == r;
  }

  /** `t` occurs in `gap + t + tail` twice when neither `gap` nor `tail` has a character that can start it. */
  lemma CountTwoMatches(gap: string, tail: string, t: string)
    requires t != []
    requires forall i :: 0 <= i < |gap| ==> gap[i] != t[0]
    requires forall i :: 0 <= i < |tail| ==> tail[i] != t[0]
    ensures Count(t + (gap + (t + tail)), t) == 2
  {
    assert tail + [] == tail;
    CountSkip(tail, [], t);
    CountTake(tail, t);
    CountSkip(gap, t + tail, t);
    CountTake(gap + (t + tail), t);
  }

  /** `t` occurs in `head + t + tail` once when neither `head` nor `tail` has a character that can start it. */
  lemma CountOneMatch(head: string, tail: string, t: string)
    requires t != []
    requires forall i :: 0 <= i < |head| ==> head[i] != t[0]
    requires forall i :: 0 <= i < |tail| ==> tail[i] != t[0]
    ensures Count(head + (t + tail), t) == 1
  {
    assert tail + [] == tail;
    CountSkip(tail, [], t);
    CountTake(tail, t);
    CountSkip(head, t + tail, t);
  }

  lemma CountTitleExample()
    ensures Count("cats and cats", "cat") == 2
  {
    CountTwoMatches("s and ", "s", "cat");
    assert "cat" + ("s and " + ("cat" + "s")) == "cats and cats";
  }

  lemma CountDescriptionExample()
    ensures Count("no cats here", "cat") == 1
  {
    CountOneMatch("no ", "s here", "cat");
    assert "no " + ("cat" + "s here") == "no cats here";
  }

  /** Both fields are counted, whatever their case: two matches in the title and one in the description. */
  lemma SearchCountExample()
    ensures SearchCount("Cats and cats", "no cats here", "cat") == 3
  {
    LowerEq("Cats and cats", "cats and cats");
    LowerEq("no cats here", "no cats here");
    LowerEq("cat", "cat");
    CountTitleExample();
    CountDescriptionExample();
  }

  /** An occurrence across the title/description boundary is not counted. */
  lemma SearchCountSplitsFields()
    ensures SearchCount("Ca", "t", "cat") == 0
    ensures Count(Lower("Ca" + "t"), Lower("cat")) == 1
  {
    assert Lower("Ca") == "ca";
    assert Lower("t") == "t";
    assert Lower("cat") == "cat";
    assert Lower("Ca" + "t") == "cat";
    assert "cat"[..3] == "cat" && "cat"[3..] == [];
  }

  // ---------------------------------------------------------------------
  // contains_money
  // ---------------------------------------------------------------------

  predicate IsDigit(c: char)
  {
    '0' <= c <= '9'
  }

  predicate StartsAt(s: string, i: nat, w: string)
  {
    i + |w| <= |s| && s[i..i + |w|] == w
  }

  /** A money mention starts at `i`: `$` then a digit, or a digit then ` dollars` or ` USD`. */
  predicate MoneyAt(s: string, i: nat)
    requires i < |s|
  {
    || (s[i] == '$' && i + 1 < |s| && IsDigit(s[i + 1]))
    || (IsDigit(s[i]) && (StartsAt(s, i + 1, " dollars") || StartsAt(s, i + 1, " USD")))
  }

  /**
   * `bool(re.search(r'\$\d+(?:,\d+)*(?:\.\d+)?|\d+ dollars|\d+ USD', text))`,
   * in the simplified form that `ContainsMoneyMatchesPattern` proves equivalent.
   */
  predicate ContainsMoney(text: string)
  {
    exists i | 0 <= i < |text| :: MoneyAt(text, i)
  }

  // The regular expression, read as a grammar over the matched text.

  /** `\d+` */
  ghost predicate Digits(w: string)
  {
    |w| > 0 && forall k :: 0 <= k < |w| ==> IsDigit(w[k])
  }

  /** `\d+(?:,\d+)*` */
  ghost predicate Grouped(w: string)
    decreases |w|
  {
    || Digits(w)
    || exists k :: 0 < k < |w| && w[k] == ',' && Grouped(w[..k]) && Digits(w[k + 1..])
  }

  /** `\d+(?:,\d+)*(?:\.\d+)?` */
  ghost predicate Amount(w: string)
  {
    || Grouped(w)
    || exists k :: 0 < k < |w| && w[k] == '.' && Grouped(w[..k]) && Digits(w[k + 1..])
  }

  /** `\$\d+(?:,\d+)*(?:\.\d+)?|\d+ dollars|\d+ USD`, matched by the whole of `w`. */
  ghost predicate MoneyPattern(w: string)
  {
    || (|w| > 0 && w[0] == '$' && Amount(w[1..]))
    || (|w| > 8 && Digits(w[..|w| - 8]) && w[|w| - 8..] == " dollars")
    || (|w| > 4 && Digits(w[..|w| - 4]) && w[|w| - 4..] == " USD")
  }

  /** `re.search` succeeds: some substring of `text` matches the pattern. */
  ghost predicate PatternFound(text: string)
  {
    exists i, j :: 0 <= i <= j <= |text| && MoneyPattern(text[i..j])
  }

  lemma {:induction false} GroupedStartsWithDigit(w: string)
    requires Grouped(w)
    ensures |w| > 0 && IsDigit(w[0])
    decreases |w|
  {
    if !Digits(w) {
      var k :| 0 < k < |w| && w[k] == ',' && Grouped(w[..k]) && Digits(w[k + 1..]);
      GroupedStartsWithDigit(w[..k]);
    }
  }

  lemma AmountStartsWithDigit(w: string)
    requires Amount(w)
    ensures |w| > 0 && IsDigit(w[0])
  {
    if Grouped(w) {
      GroupedStartsWithDigit(w);
    } else {
      var k :| 0 < k < |w| && w[k] == '.' && Grouped(w[..k]) && Digits(w[k + 1..]);
      GroupedStartsWithDigit(w[..k]);
    }
  }

  lemma MoneyAtIsMatch(text: string, i: nat)
    requires i < |text| && MoneyAt(text, i)
    ensures PatternFound(text)
  {
    if text[i] == '$' && i + 1 < |text| && IsDigit(text[i + 1]) {
      var w := text[i..i + 2];
      assert w[1..] == [text[i + 1]];
      assert Digits(w[1..]) && Grouped(w[1..]) && Amount(w[1..]);
      assert MoneyPattern(w);
    } else if StartsAt(text, i + 1, " dollars") {
      var w := text[i..i + 9];
      assert w[..|w| - 8] == [text[i]];
      assert w[|w| - 8..] == text[i + 1..i + 9];
      assert MoneyPattern(w);
    } else {
      var w := text[i..i + 5];
      assert w[..|w| - 4] == [text[i]];
      assert w[|w| - 4..] == text[i + 1..i + 5];
      assert MoneyPattern(w);
    }
  }

  /** A `$` alternative matched at `i` starts with `$` and a digit. */
  lemma DollarSignMatch(text: string, i: nat, j: nat)
    requires i < j <= |text| && text[i] == '$' && Amount(text[i + 1..j])
    ensures MoneyAt(text, i)
  {
    AmountStartsWithDigit(text[i + 1..j]);
    assert text[i + 1..j][0] == text[i + 1];
  }

  /** A `\d+` + `suffix` alternative ending at `j` has a digit right before the suffix. */
  lemma SuffixMatch(text: string, i: nat, j: nat, suffix: string)
    requires i + |suffix| < j <= |text|
    requires Digits(text[i..j - |suffix|]) && text[j - |suffix|..j] == suffix
    ensures IsDigit(text[j - |suffix| - 1]) && StartsAt(text, j - |suffix|, suffix)
  {
    var d := text[i..j - |suffix|];
    assert d[|d| - 1] == text[j - |suffix| - 1];
  }

  lemma MatchHasMoneyAt(text: string, i: nat, j: nat)
    requires i <= j <= |text| && MoneyPattern(text[i..j])
    ensures ContainsMoney(text)
  {
    var w := text[i..j];
    if |w| > 0 && w[0] == '$' && Amount(w[1..]) {
      assert w[1..] == text[i + 1..j];
      DollarSignMatch(text, i, j);
    } else if |w| > 8 && Digits(w[..|w| - 8]) && w[|w| - 8..] == " dollars" {
      assert w[..|w| - 8] == text[i..j - 8] && w[|w| - 8..] == text[j - 8..j];
      SuffixMatch(text, i, j, " dollars");
      assert MoneyAt(text, j - 9);
    } else {
      assert w[..|w| - 4] == text[i..j - 4] && w[|w| - 4..] == text[j - 4..j];
      SuffixMatch(text, i, j, " USD");
      assert MoneyAt(text, j - 5);
    }
  }

  /**
   * The optional comma groups and decimal fraction never decide whether
   * the pattern is found: it is found exactly when the text has a `$`
   * followed by a digit, or a digit followed by ` dollars` or ` USD`.
   */
  lemma ContainsMoneyMatchesPattern(text: string)
    ensures ContainsMoney(text) <==> PatternFound(text)
  {
    if ContainsMoney(text) {
      var i :| 0 <= i < |text| && MoneyAt(text, i);
      MoneyAtIsMatch(text, i);
    }
    if PatternFound(text) {
      var i, j :| 0 <= i <= j <= |text| && MoneyPattern(text[i..j]);
      MatchHasMoneyAt(text, i, j);
    }
  }

  /** Mentions of money: a grouped amount with cents, a number of dollars, a number of USD. */
  lemma ContainsMoneyExamples()
    ensures ContainsMoney("Prices rose to $1,250.50 today")
    ensures ContainsMoney("costs 500 dollars")
    ensures ContainsMoney("charged 20 USD")
    ensures !ContainsMoney("5 usd")
  {
    assert MoneyAt("Prices rose to $1,250.50 today", 15);
    assert "costs 500 dollars"[9..17] == " dollars";
    assert MoneyAt("costs 500 dollars", 8);
    assert "charged 20 USD"[10..14] == " USD";
    assert MoneyAt("charged 20 USD", 9);
    forall i | 0 <= i < 5 ensures !MoneyAt("5 usd", i) {
      if i == 0 {
        assert "5 usd"[1..5][2] != " USD"[2];
      }
    }
  }
}
