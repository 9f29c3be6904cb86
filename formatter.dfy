/** The reply-to-HTML formatter `formatResponse`: six calls of
    `String.prototype.replace`, each on the output of the one before.

    1. a `**Test Case <digits>:**` label is wrapped, asterisks and all, in an
       `<h5>` heading;
    2. `**`, one or more characters other than `*` (newlines included), `**`
       becomes `<strong>` around the inner text, the inner text ending at its
       first `*` (the lazy `+?` cannot pass a `*`);
    3. at a line start, one or more digits, `.`, and one or more whitespace
       characters (greedy, newlines included) are wrapped in an indented span
       preceded by `<br/>`;
    4. at a line start, one of `-`, `*`, `+` followed by one or more
       whitespace characters is wrapped the same way;
    5. every `\n` becomes `<br/>`;
    6. the one `<br/>` followed by nothing but whitespace up to the end of the
       text, if there is one, is removed together with that whitespace.

    The first five are global expressions: the scan runs left to right, a
    match is replaced and the scan resumes after it, and where nothing
    matches one character is copied. Under the `m` flag of 3 and 4, `^` holds
    at index 0 and right after any ECMAScript line terminator (LF, CR, U+2028,
    U+2029) of the text being scanned. */
module Formatter {
  import opened JsText

  const TestCaseOpen := "**Test Case "
  const HeadingOpen := "<h5 class=\"text-lg font-bold mt-4\">"
  const HeadingClose := "</h5>"
  const StrongOpen := "<strong>"
  const StrongClose := "</strong>"
  const ItemOpen := "<br/><span class=\"ml-4\">"
  const ItemClose := "</span>"
  const Break := "<br/>"

  /** The five global expressions of the chain, in the order they run. */
  datatype Pattern = TestCaseHeading | BoldPair | NumberedItem | BulletItem | Newline

  /** What a sticky attempt of a pattern at the scan position gives: the
      length of the text matched there and what replaces it. */
  datatype Hit = NoMatch | Match(len: nat, replacement: string)

  // ------------------------------------------------------ character runs

  /** `\d`, `\s` and `[^*]`. */
  datatype CharClass = Digit | Space | NotStar

  predicate InClass(c: char, k: CharClass) {
    match k
    case Digit => IsDigit(c)
    case Space => IsSpace(c)
    case NotStar => c != '*'
  }

  predicate AllIn(s: string, k: CharClass) {
    forall i :: 0 <= i < |s| ==> InClass(s[i], k)
  }

  /** How far a greedy repetition of `k` reaches from the start of `s`. */
  function Run(s: string, k: CharClass): (n: nat)
    ensures n <= |s|
    ensures AllIn(s[..n], k)
    ensures n == |s| || !InClass(s[n], k)
  {
    if s == [] || !InClass(s[0], k) then 0 else 1 + Run(s[1..], k)
  }

  /** A run is determined by where the class first fails. */
  lemma RunExact(s: string, k: CharClass, m: nat)
    requires m <= |s| && AllIn(s[..m], k)
    requires m == |s| || !InClass(s[m], k)
    ensures Run(s, k) == m
  {
    var n := Run(s, k);
    assert forall j :: 0 <= j < m ==> s[..m][j] == s[j];
    assert forall j :: 0 <= j < n ==> s[..n][j] == s[j];
  }

  /** A run reaches at least as far as any prefix that is all in the class. */
  lemma RunAtLeast(s: string, k: CharClass, m: nat)
    requires m <= |s| && AllIn(s[..m], k)
    ensures Run(s, k) >= m
  {
    var n := Run(s, k);
    assert forall j :: 0 <= j < m ==> s[..m][j] == s[j];
  }

  // ------------------------------------------------- the matched languages

  /** `**Test Case `, one or more digits, `:**`. */
  predicate IsTestCaseLabel(x: string) {
    && |x| > |TestCaseOpen| + 3
    && x[..|TestCaseOpen|] == TestCaseOpen
    && AllIn(x[|TestCaseOpen|..|x| - 3], Digit)
    && x[|x| - 3..] == ":**"
  }

  /** `**`, one or more characters other than `*`, `**`. */
  predicate IsBoldPair(x: string) {
    && |x| >= 5
    && x[..2] == "**"
    && AllIn(x[2..|x| - 2], NotStar)
    && x[|x| - 2..] == "**"
  }

  /** One or more digits, `.`, one or more whitespace characters. */
  predicate IsNumberedMarker(x: string) {
    var d := Run(x, Digit);
    0 < d && d + 1 < |x| && x[d] == '.' && AllIn(x[d + 1..], Space)
  }

  predicate IsBulletChar(c: char) {
    c == '-' || c == '*' || c == '+'
  }

  /** One of `-`, `*`, `+`, then one or more whitespace characters. */
  predicate IsBulletMarker(x: string) {
    |x| >= 2 && IsBulletChar(x[0]) && AllIn(x[1..], Space)
  }

  // ------------------------------------------- the patterns at one position

  /** The heading pattern tried at the start of `s`. */
  function HeadingHit(s: string): (h: Hit)
    ensures h.Match? ==> 0 < h.len <= |s| && IsTestCaseLabel(s[..h.len])
    ensures h.Match? ==> h.replacement == HeadingOpen + s[..h.len] + HeadingClose
  {
    var k := |TestCaseOpen|;
    if |s| < k || s[..k] != TestCaseOpen then
      NoMatch
    else
      var d := Run(s[k..], Digit);
      if 0 < d && k + d + 3 <= |s| && s[k + d..k + d + 3] == ":**" then
        var n := k + d + 3;
        assert s[..n][k..n - 3] == s[k..][..d];
        Match(n, HeadingOpen + s[..n] + HeadingClose)
      else
        NoMatch
  }

  /** Whenever a label starts `s`, the heading pattern matches exactly it. */
  lemma HeadingHitComplete(s: string, n: nat)
    requires n <= |s| && IsTestCaseLabel(s[..n])
    ensures HeadingHit(s) == Match(n, HeadingOpen + s[..n] + HeadingClose)
  {
    var k := |TestCaseOpen|;
    assert s[..k] == s[..n][..k];
    assert s[k..][..n - 3 - k] == s[..n][k..n - 3];
    assert s[k..][n - 3 - k] == s[..n][n - 3] == ':';
    RunExact(s[k..], Digit, n - 3 - k);
    assert s[n - 3..n] == s[..n][n - 3..];
  }

  /** The bold pattern tried at the start of `s`. */
  function BoldHit(s: string): (h: Hit)
    ensures h.Match? ==> 0 < h.len <= |s| && IsBoldPair(s[..h.len])
    ensures h.Match? ==> h.replacement == StrongOpen + s[2..h.len - 2] + StrongClose
  {
    if |s| < 2 || s[..2] != "**" then
      NoMatch
    else
      var k := Run(s[2..], NotStar);
      if 0 < k && k + 4 <= |s| && s[k + 2..k + 4] == "**" then
        var n := k + 4;
        assert s[..n][2..n - 2] == s[2..][..k];
        Match(n, StrongOpen + s[2..n - 2] + StrongClose)
      else
        NoMatch
  }

  /** Whenever a bold pair starts `s`, the bold pattern matches exactly it:
      the lazy inner part cannot stop earlier, nor pass the first `*`. */
  lemma BoldHitComplete(s: string, n: nat)
    requires n <= |s| && IsBoldPair(s[..n])
    ensures BoldHit(s) == Match(n, StrongOpen + s[2..n - 2] + StrongClose)
  {
    assert s[..2] == s[..n][..2];
    assert s[2..][..n - 4] == s[..n][2..n - 2];
    assert s[2..][n - 4] == s[..n][n - 2] == '*';
    RunExact(s[2..], NotStar, n - 4);
    assert s[n - 2..n] == s[..n][n - 2..];
  }

  /** The numbered-item pattern tried at the start of `s`. */
  function NumberedHit(s: string, atLineStart: bool): (h: Hit)
    ensures h.Match? ==> atLineStart && 0 < h.len <= |s| && IsNumberedMarker(s[..h.len])
    ensures h.Match? ==> h.len == |s| || !IsSpace(s[h.len])
    ensures h.Match? ==> h.replacement == ItemOpen + s[..h.len] + ItemClose
  {
    if !atLineStart then
      NoMatch
    else
      var d := Run(s, Digit);
      if 0 < d < |s| && s[d] == '.' then
        var w := Run(s[d + 1..], Space);
        if 0 < w then
          var n := d + 1 + w;
          assert s[..n][..d] == s[..d];
          RunExact(s[..n], Digit, d);
          assert s[..n][d + 1..] == s[d + 1..][..w];
          Match(n, ItemOpen + s[..n] + ItemClose)
        else
          NoMatch
      else
        NoMatch
  }

  /** At a line start, a numbered marker followed by a non-space (or the
      end) is matched whole: the greedy `\s+` takes all of its whitespace. */
  lemma NumberedHitComplete(s: string, n: nat)
    requires n <= |s| && IsNumberedMarker(s[..n])
    requires n == |s| || !IsSpace(s[n])
    ensures NumberedHit(s, true) == Match(n, ItemOpen + s[..n] + ItemClose)
  {
    var x := s[..n];
    var d := Run(x, Digit);
    assert x[..d] == s[..d];
    assert s[d] == x[d];
    RunExact(s, Digit, d);
    assert s[d + 1..][..n - d - 1] == x[d + 1..];
    RunExact(s[d + 1..], Space, n - d - 1);
  }

  /** The bullet-item pattern tried at the start of `s`. */
  function BulletHit(s: string, atLineStart: bool): (h: Hit)
    ensures h.Match? ==> atLineStart && 0 < h.len <= |s| && IsBulletMarker(s[..h.len])
    ensures h.Match? ==> h.len == |s| || !IsSpace(s[h.len])
    ensures h.Match? ==> h.replacement == ItemOpen + s[..h.len] + ItemClose
  {
    if !atLineStart || s == [] || !IsBulletChar(s[0]) then
      NoMatch
    else
      var w := Run(s[1..], Space);
      if 0 < w then
        assert s[..1 + w][1..] == s[1..][..w];
        Match(1 + w, ItemOpen + s[..1 + w] + ItemClose)
      else
        NoMatch
  }

  /** At a line start, a bullet marker followed by a non-space (or the end)
      is matched whole. */
  lemma BulletHitComplete(s: string, n: nat)
    requires n <= |s| && IsBulletMarker(s[..n])
    requires n == |s| || !IsSpace(s[n])
    ensures BulletHit(s, true) == Match(n, ItemOpen + s[..n] + ItemClose)
  {
    assert s[1..][..n - 1] == s[..n][1..];
    RunExact(s[1..], Space, n - 1);
  }

  /** The newline pattern tried at the start of `s`. */
  function NewlineHit(s: string): (h: Hit)
    ensures h.Match? ==> |s| > 0 && s[0] == '\n' && h == Match(1, Break)
    ensures h.NoMatch? ==> s == [] || s[0] != '\n'
  {
    if s != [] && s[0] == '\n' then Match(1, Break) else NoMatch
  }

  /** Pattern `p` tried at the start of `s`. Every match is non-empty, lies
      inside `s`, and is replaced by something longer. */
  function HitAt(p: Pattern, s: string, atLineStart: bool): (h: Hit)
    ensures h.Match? ==> 0 < h.len <= |s| && |h.replacement| > h.len
  {
    match p
    case TestCaseHeading => HeadingHit(s)
    case BoldPair => BoldHit(s)
    case NumberedItem => NumberedHit(s, atLineStart)
    case BulletItem => BulletHit(s, atLineStart)
    case Newline => NewlineHit(s)
  }

  // ------------------------------------------------------- global replace

  /** `s.replace(re, …)` for the global expression `p`, where `atLineStart`
      tells whether the scan position (the start of `s`) is one where `^`
      holds. After a match the scan resumes behind it; otherwise one
      character is copied. */
  function ReplaceAll(s: string, atLineStart: bool, p: Pattern): (r: string)
    ensures |r| >= |s|
    decreases |s|
  {
    if s == [] then
      []
    else
      var h := HitAt(p, s, atLineStart);
      if h.Match? then
        h.replacement + ReplaceAll(s[h.len..], IsLineTerminator(s[h.len - 1]), p)
      else
        [s[0]] + ReplaceAll(s[1..], IsLineTerminator(s[0]), p)
  }

  /** A match at the scan position is replaced and the scan resumes
      behind it. */
  lemma ReplaceAllAtMatch(s: string, f: bool, p: Pattern)
    requires HitAt(p, s, f).Match?
    ensures var h := HitAt(p, s, f);
      ReplaceAll(s, f, p) == h.replacement + ReplaceAll(s[h.len..], IsLineTerminator(s[h.len - 1]), p)
  {
  }

  /** One `replace` call of the chain on the whole of `s`: the text comes
      back as it was or strictly longer, never shorter and never rewritten
      to the same length. */
  function Apply(s: string, p: Pattern): (r: string)
    ensures r == s || |r| > |s|
  {
    ReplaceAllGrows(s, true, p);
    ReplaceAllUnchangedIff(s, true, p);
    ReplaceAll(s, true, p)
  }

  /** Whether `^` holds at index `i` of `s`, `f` telling it for index 0. */
  predicate LineStartAt(s: string, i: nat, f: bool)
    requires i <= |s|
  {
    if i == 0 then f else IsLineTerminator(s[i - 1])
  }

  /** The attempt of `p` at index `i` of `s` does not match. */
  predicate NoHitAt(s: string, i: nat, f: bool, p: Pattern)
    requires i <= |s|
  {
    HitAt(p, s[i..], LineStartAt(s, i, f)).NoMatch?
  }

  /** No attempt of `p` at the first `k` positions of `s` matches. */
  predicate QuietUpTo(s: string, k: nat, f: bool, p: Pattern) {
    k <= |s| && forall i :: 0 <= i < k ==> NoHitAt(s, i, f, p)
  }

  predicate Quiet(s: string, f: bool, p: Pattern) {
    QuietUpTo(s, |s|, f, p)
  }

  /** Where no attempt matches, the scan copies the text unchanged and
      reaches the rest with the line-start flag of that position. */
  lemma {:induction false} ReplaceAllCopies(s: string, k: nat, f: bool, p: Pattern)
    requires QuietUpTo(s, k, f, p)
    ensures ReplaceAll(s, f, p) == s[..k] + ReplaceAll(s[k..], LineStartAt(s, k, f), p)
    decreases k
  {
    if k > 0 {
      var g := IsLineTerminator(s[0]);
      var t := s[1..];
      QuietHead(s, k, f, p);
      CopyStep(s, f, p);
      QuietShift(s, k, f, p);
      ReplaceAllCopies(t, k - 1, g, p);
      ShiftSlices(s, k, f);
      Glue(ReplaceAll(s, f, p), ReplaceAll(t, g, p), ReplaceAll(s[k..], LineStartAt(s, k, f), p), s[0], t[..k - 1], s[..k]);
    } else {
      assert s[..0] == [] && s[0..] == s;
    }
  }

  lemma Glue(a: string, b: string, r: string, c: char, x: string, y: string)
    requires a == [c] + b && b == x + r && y == [c] + x
    ensures a == y + r
  {
  }

  /** Where nothing matches at the scan position, one character is copied. */
  lemma CopyStep(s: string, f: bool, p: Pattern)
    requires s != [] && HitAt(p, s, f).NoMatch?
    ensures ReplaceAll(s, f, p) == [s[0]] + ReplaceAll(s[1..], IsLineTerminator(s[0]), p)
  {
  }

  lemma QuietHead(s: string, k: nat, f: bool, p: Pattern)
    requires 0 < k && QuietUpTo(s, k, f, p)
    ensures s != [] && HitAt(p, s, f).NoMatch?
  {
    assert NoHitAt(s, 0, f, p);
    assert s[0..] == s;
  }

  lemma ShiftSlices(s: string, k: nat, f: bool)
    requires 0 < k <= |s|
    ensures s[1..][k - 1..] == s[k..]
    ensures LineStartAt(s[1..], k - 1, IsLineTerminator(s[0])) == LineStartAt(s, k, f)
    ensures s[..k] == [s[0]] + s[1..][..k - 1]
  {
  }

  /** Quietness over the first `k` positions carries over to the text
      behind its first character. */
  lemma QuietShift(s: string, k: nat, f: bool, p: Pattern)
    requires 0 < k && QuietUpTo(s, k, f, p)
    ensures QuietUpTo(s[1..], k - 1, IsLineTerminator(s[0]), p)
  {
    var g := IsLineTerminator(s[0]);
    var t := s[1..];
    forall i | 0 <= i < k - 1
      ensures NoHitAt(t, i, g, p)
    {
      assert NoHitAt(s, i + 1, f, p);
      assert t[i..] == s[i + 1..];
      assert LineStartAt(t, i, g) == LineStartAt(s, i + 1, f);
    }
  }

  /** A pass never shortens the text, and lengthens it whenever some
      attempt matches. */
  lemma {:induction false} ReplaceAllGrows(s: string, f: bool, p: Pattern)
    ensures |ReplaceAll(s, f, p)| >= |s|
    ensures !Quiet(s, f, p) ==> |ReplaceAll(s, f, p)| > |s|
    decreases |s|
  {
    if s != [] {
      var h := HitAt(p, s, f);
      if h.Match? {
        ReplaceAllGrows(s[h.len..], IsLineTerminator(s[h.len - 1]), p);
      } else {
        ReplaceAllGrows(s[1..], IsLineTerminator(s[0]), p);
        QuietStep(s, f, p);
      }
    }
  }

  /** Past a position where nothing matches, quietness is that of the rest. */
  lemma QuietStep(s: string, f: bool, p: Pattern)
    requires s != [] && HitAt(p, s, f).NoMatch?
    ensures Quiet(s, f, p) <==> Quiet(s[1..], IsLineTerminator(s[0]), p)
  {
    var g := IsLineTerminator(s[0]);
    var t := s[1..];
    assert s[0..] == s;
    if Quiet(s, f, p) {
      forall i | 0 <= i < |t| ensures NoHitAt(t, i, g, p) {
        assert NoHitAt(s, i + 1, f, p);
        assert t[i..] == s[i + 1..];
        assert LineStartAt(t, i, g) == LineStartAt(s, i + 1, f);
      }
    }
    if Quiet(t, g, p) {
      forall i | 1 <= i < |s| ensures NoHitAt(s, i, f, p) {
        assert NoHitAt(t, i - 1, g, p);
        assert t[i - 1..] == s[i..];
        assert LineStartAt(t, i - 1, g) == LineStartAt(s, i, f);
      }
    }
  }

  /** A pass leaves a text unchanged exactly when no attempt in it matches. */
  lemma ReplaceAllUnchangedIff(s: string, f: bool, p: Pattern)
    ensures ReplaceAll(s, f, p) == s <==> Quiet(s, f, p)
  {
    ReplaceAllGrows(s, f, p);
    if Quiet(s, f, p) {
      ReplaceAllCopies(s, |s|, f, p);
      assert s[..|s|] == s && s[|s|..] == [];
    }
  }

  /** The heading, bold and newline patterns do not use `^`. */
  predicate IgnoresLineStart(p: Pattern) {
    p == TestCaseHeading || p == BoldPair || p == Newline
  }

  lemma {:induction false} LineStartIgnored(s: string, f: bool, g: bool, p: Pattern)
    requires IgnoresLineStart(p)
    ensures ReplaceAll(s, f, p) == ReplaceAll(s, g, p)
    decreases |s|
  {
    if s != [] {
      assert HitAt(p, s, f) == HitAt(p, s, g);
      var h := HitAt(p, s, f);
      if h.Match? {
        LineStartIgnored(s[h.len..], IsLineTerminator(s[h.len - 1]), IsLineTerminator(s[h.len - 1]), p);
      } else {
        LineStartIgnored(s[1..], IsLineTerminator(s[0]), IsLineTerminator(s[0]), p);
      }
    }
  }

  /** The heading and bold passes copy any text without `*` in front of the
      rest, which they treat as if it stood alone. */
  lemma NoStarPrefixCopied(pre: string, t: string, p: Pattern)
    requires p == TestCaseHeading || p == BoldPair
    requires '*' !in pre
    ensures Apply(pre + t, p) == pre + Apply(t, p)
  {
    var s := pre + t;
    forall i | 0 <= i < |pre|
      ensures NoHitAt(s, i, true, p)
    {
      assert s[i..][0] == pre[i];
    }
    ReplaceAllCopies(s, |pre|, true, p);
    assert s[..|pre|] == pre && s[|pre|..] == t;
    LineStartIgnored(t, LineStartAt(s, |pre|, true), true, p);
  }

  // ---------------------------------------------------- the trailing break

  /** `<br/>` followed by nothing but whitespace to the end. */
  predicate IsBreakTail(s: string) {
    |s| >= |Break| && s[..|Break|] == Break && AllSpace(s[|Break|..])
  }

  /** The last replacement (no `g`, no `m`, so `$` is the end of the text):
      at the leftmost position where `<br/>`, whitespace and the end follow,
      the text is cut off; if there is no such position it is kept. */
  function StripTrailingBreak(s: string): (r: string)
    ensures |r| <= |s| && r == s[..|r|]
    decreases |s|
  {
    if s == [] || IsBreakTail(s) then [] else [s[0]] + StripTrailingBreak(s[1..])
  }

  /** The same rule read from the right: drop the trailing whitespace; if
      what is left ends in `<br/>`, drop that too, otherwise keep `s`. */
  function StripTrailingBreakFromEnd(s: string): (r: string)
    ensures |r| <= |s| && r == s[..|r|]
    ensures r != s ==> |r| + |Break| <= |s| && s[|r|..|r| + |Break|] == Break && AllSpace(s[|r| + |Break|..])
  {
    var t := TrimEnd(s);
    if |t| >= |Break| && t[|t| - |Break|..] == Break then
      var r := t[..|t| - |Break|];
      assert s[|r|..|r| + |Break|] == t[|t| - |Break|..];
      assert s[|r| + |Break|..] == s[|t|..];
      r
    else
      s
  }

  /** A break tail starts with the text's last `<`. */
  lemma BreakTailShape(s: string, i: nat)
    requires i <= |s|
    ensures IsBreakTail(s[i..]) ==> i < |s| && s[i] == '<' && forall q :: i < q < |s| ==> s[q] != '<'
  {
    if IsBreakTail(s[i..]) {
      assert s[i] == s[i..][..|Break|][0];
      forall q | i < q < |s| ensures s[q] != '<' {
        assert s[q] == s[i..][q - i];
        assert q - i < |Break| ==> s[i..][q - i] == Break[q - i];
        assert q - i >= |Break| ==> s[i..][q - i] == s[i..][|Break|..][q - i - |Break|];
      }
    }
  }

  /** A text has at most one break tail. */
  lemma BreakTailUnique(s: string, i: nat, j: nat)
    requires i <= |s| && j <= |s| && IsBreakTail(s[i..]) && IsBreakTail(s[j..])
    ensures i == j
  {
    BreakTailShape(s, i);
    BreakTailShape(s, j);
  }

  /** With a break tail at `i`, the last pass cuts the text there. */
  lemma {:induction false} StripAtBreakTail(s: string, i: nat)
    requires i <= |s| && IsBreakTail(s[i..])
    ensures StripTrailingBreak(s) == s[..i]
    decreases i
  {
    if i > 0 {
      assert s[0..] == s;
      BreakTailShape(s, 0);
      BreakTailShape(s, i);
      assert s[1..][i - 1..] == s[i..];
      StripAtBreakTail(s[1..], i - 1);
      assert s[..i] == [s[0]] + s[1..][..i - 1];
    }
  }

  /** A break tail at `i` is what is left of the text once its trailing
      whitespace is trimmed. */
  lemma BreakTailIsTrimmedEnd(s: string, i: nat)
    requires i <= |s|
    ensures IsBreakTail(s[i..]) ==> TrimEnd(s) == s[..i + |Break|]
    ensures IsBreakTail(s[i..]) ==> var t := TrimEnd(s); |t| >= |Break| && t[|t| - |Break|..] == Break
  {
    if IsBreakTail(s[i..]) {
      var t := TrimEnd(s);
      var e := i + |Break|;
      forall q | |t| <= q < |s| ensures IsSpace(s[q]) {
        assert s[q] == s[|t|..][q - |t|];
      }
      forall q | e <= q < |s| ensures IsSpace(s[q]) {
        assert s[q] == s[i..][|Break|..][q - e];
      }
      assert s[e - 1] == s[i..][..|Break|][|Break| - 1];
      assert |t| == e;
      assert t[|t| - |Break|..] == s[i..][..|Break|];
    }
  }

  /** A text with no break tail anywhere goes through the last pass
      unchanged. */
  lemma {:induction false} StripWithoutBreakTail(s: string)
    requires forall i :: 0 <= i <= |s| ==> !IsBreakTail(s[i..])
    ensures StripTrailingBreak(s) == s
    decreases |s|
  {
    if s != [] {
      assert s[0..] == s;
      forall i | 0 <= i <= |s| - 1 ensures !IsBreakTail(s[1..][i..]) {
        assert s[1..][i..] == s[i + 1..];
      }
      StripWithoutBreakTail(s[1..]);
    }
  }

  /** The leftmost-match reading of the last pass agrees with the reading
      from the right: at most one `<br/>` goes, and only the final one. */
  lemma StripMatchesFromEnd(s: string)
    ensures StripTrailingBreak(s) == StripTrailingBreakFromEnd(s)
  {
    var t := TrimEnd(s);
    if |t| >= |Break| && t[|t| - |Break|..] == Break {
      var i := |t| - |Break|;
      assert s[i..][..|Break|] == t[i..];
      assert s[i..][|Break|..] == s[|t|..];
      StripAtBreakTail(s, i);
    } else {
      forall i | 0 <= i <= |s| ensures !IsBreakTail(s[i..]) {
        BreakTailIsTrimmedEnd(s, i);
      }
      StripWithoutBreakTail(s);
    }
  }

  // -------------------------------------------------------- formatResponse

  /** `formatResponse`: the five global passes in order, then the removal of
      the trailing break. */
  function FormatResponse(text: string): (r: string)
    ensures '\n' !in r
  {
    var headed := Apply(text, TestCaseHeading);
    var bolded := Apply(headed, BoldPair);
    var numbered := Apply(bolded, NumberedItem);
    var bulleted := Apply(numbered, BulletItem);
    var broken := Apply(bulleted, Newline);
    BreaksHaveNoNewline(bulleted, true);
    StrippedHasNoNewline(broken);
    StripTrailingBreak(broken)
  }

  /** The empty reply formats to the empty string. */
  lemma FormatResponseEmpty()
    ensures FormatResponse("") == ""
  {
  }

  /** The newline pass leaves no `\n`. */
  lemma {:induction false} BreaksHaveNoNewline(s: string, f: bool)
    ensures '\n' !in ReplaceAll(s, f, Newline)
    decreases |s|
  {
    if s != [] {
      var h := HitAt(Newline, s, f);
      if h.Match? {
        BreaksHaveNoNewline(s[1..], IsLineTerminator(s[0]));
      } else {
        BreaksHaveNoNewline(s[1..], IsLineTerminator(s[0]));
      }
    }
  }

  /** Cutting off a break tail adds no `\n`. */
  lemma StrippedHasNoNewline(s: string)
    requires '\n' !in s
    ensures '\n' !in StripTrailingBreak(s)
  {
    var r := StripTrailingBreak(s);
    forall i | 0 <= i < |r| ensures r[i] != '\n' {
      assert r[i] == s[i];
    }
  }

  /** Neither a numbered nor a bullet marker starts `s`. */
  predicate NoListMarkerAtStart(s: string) {
    forall n :: 0 < n <= |s| ==> !IsNumberedMarker(s[..n]) && !IsBulletMarker(s[..n])
  }

  /** No position of `s` starts a break tail. */
  predicate NoBreakTail(s: string) {
    forall i :: 0 <= i <= |s| ==> !IsBreakTail(s[i..])
  }

  /** In one line, the list patterns can only match at its start. */
  lemma ListPassQuietInLine(s: string, p: Pattern)
    requires p == NumberedItem || p == BulletItem
    requires NoLineTerminator(s) && NoListMarkerAtStart(s)
    ensures Apply(s, p) == s
  {
    forall i | 0 <= i < |s| ensures NoHitAt(s, i, true, p) {
      if i == 0 {
        assert s[0..] == s;
      }
    }
    ReplaceAllUnchangedIff(s, true, p);
  }

  /** A reply with no `*`, no line terminator, no list marker at its start
      and no `<br/>` before trailing whitespace is shown exactly as it is;
      literal markup in it is not escaped. */
  lemma FormatResponseUnchanged(text: string)
    requires '*' !in text
    requires NoLineTerminator(text)
    requires NoListMarkerAtStart(text)
    requires NoBreakTail(text)
    ensures FormatResponse(text) == text
  {
    NoStarPrefixCopied(text, [], TestCaseHeading);
    NoStarPrefixCopied(text, [], BoldPair);
    assert text + [] == text;
    ListPassQuietInLine(text, NumberedItem);
    ListPassQuietInLine(text, BulletItem);
    forall i | 0 <= i < |text| ensures NoHitAt(text, i, true, Newline) {
      assert text[i..][0] == text[i];
    }
    ReplaceAllUnchangedIff(text, true, Newline);
    StripWithoutBreakTail(text);
  }

  /** Each `**X**` with `X` non-empty and free of `*` becomes
      `<strong>X</strong>`, newlines in `X` included, and the scan goes on
      behind it. */
  lemma BoldPairReplaced(pre: string, x: string, t: string)
    requires '*' !in pre
    requires x != [] && '*' !in x
    ensures Apply(pre + "**" + x + "**" + t, BoldPair) == pre + StrongOpen + x + StrongClose + Apply(t, BoldPair)
  {
    var u := "**" + x + "**" + t;
    assert pre + "**" + x + "**" + t == pre + u;
    NoStarPrefixCopied(pre, u, BoldPair);
    BoldPairAtStart(x, t);
  }

  /** `BoldPairReplaced` with the pair at the scan position. */
  lemma BoldPairAtStart(x: string, t: string)
    requires x != [] && '*' !in x
    ensures Apply("**" + x + "**" + t, BoldPair) == StrongOpen + x + StrongClose + Apply(t, BoldPair)
  {
    var pair := "**" + x + "**";
    var u := pair + t;
    var n := |pair|;
    assert u[..n] == pair;
    assert pair[2..n - 2] == x;
    assert AllIn(x, NotStar);
    BoldHitComplete(u, n);
    ReplaceAllAtMatch(u, true, BoldPair);
    assert u[n..] == t;
    LineStartIgnored(t, IsLineTerminator(u[n - 1]), true, BoldPair);
    assert u[2..n - 2] == x;
  }

  /** The heading pass wraps a label at the scan position in the heading
      tags, asterisks included, and goes on behind it. */
  lemma LabelWrapped(tag: string, t: string)
    requires IsTestCaseLabel(tag)
    ensures Apply(tag + t, TestCaseHeading) == HeadingOpen + tag + HeadingClose + Apply(t, TestCaseHeading)
  {
    var s := tag + t;
    var m := |tag|;
    assert s[..m] == tag;
    HeadingHitComplete(s, m);
    ReplaceAllAtMatch(s, true, TestCaseHeading);
    assert s[m..] == t;
    LineStartIgnored(t, IsLineTerminator(s[m - 1]), true, TestCaseHeading);
  }

  /** A `**Test Case n:**` label ends up as a heading around the bold label
      text: the first pass wraps it, the second bolds its inner pair. */
  lemma TestCaseLabelBecomesHeading(n: string, t: string)
    requires n != [] && AllIn(n, Digit)
    ensures Apply(Apply(TestCaseOpen + n + ":**" + t, TestCaseHeading), BoldPair)
         == HeadingOpen + StrongOpen + "Test Case " + n + ":" + StrongClose + HeadingClose
            + Apply(Apply(t, TestCaseHeading), BoldPair)
  {
    HeadingStep(n, t);
    BoldStep(n, Apply(t, TestCaseHeading));
    Regroup(HeadingOpen, StrongOpen, "Test Case ", n, ":", StrongClose, HeadingClose, Apply(Apply(t, TestCaseHeading), BoldPair));
  }

  /** The first pass of `TestCaseLabelBecomesHeading`. */
  lemma HeadingStep(n: string, t: string)
    requires n != [] && AllIn(n, Digit)
    ensures Apply(TestCaseOpen + n + ":**" + t, TestCaseHeading)
         == HeadingOpen + ("**" + ("Test Case " + n + ":") + "**") + HeadingClose + Apply(t, TestCaseHeading)
  {
    var tag := "**" + ("Test Case " + n + ":") + "**";
    assert tag == TestCaseOpen + n + ":**";
    assert tag[..|TestCaseOpen|] == TestCaseOpen;
    assert tag[|TestCaseOpen|..|tag| - 3] == n;
    assert tag[|tag| - 3..] == ":**";
    LabelWrapped(tag, t);
  }

  /** The second pass of `TestCaseLabelBecomesHeading`. */
  lemma BoldStep(n: string, u: string)
    requires n != [] && AllIn(n, Digit)
    ensures Apply(HeadingOpen + ("**" + ("Test Case " + n + ":") + "**") + HeadingClose + u, BoldPair)
         == HeadingOpen + StrongOpen + ("Test Case " + n + ":") + StrongClose + (HeadingClose + Apply(u, BoldPair))
  {
    var inner := "Test Case " + n + ":";
    var tag := "**" + inner + "**";
    forall i | 0 <= i < |inner| ensures inner[i] != '*' {
      assert 10 <= i < 10 + |n| ==> inner[i] == n[i - 10];
    }
    assert HeadingOpen + tag + HeadingClose + u == HeadingOpen + "**" + inner + "**" + (HeadingClose + u);
    BoldPairReplaced(HeadingOpen, inner, HeadingClose + u);
    NoStarPrefixCopied(HeadingClose, u, BoldPair);
  }

  lemma Regroup(a: string, b: string, c1: string, c2: string, c3: string, d: string, e: string, f: string)
    ensures a + b + (c1 + c2 + c3) + d + (e + f) == a + b + c1 + c2 + c3 + d + e + f
  {
  }

  /** At a line start, a list marker not followed by more whitespace is
      wrapped whole in `<br/><span class="ml-4">…</span>`, and the scan
      resumes behind it; it is at a line start again if the marker's
      whitespace ended with a line terminator. */
  lemma ListMarkerWrapped(p: Pattern, m: string, t: string)
    requires (p == NumberedItem && IsNumberedMarker(m)) || (p == BulletItem && IsBulletMarker(m))
    requires t == [] || !IsSpace(t[0])
    ensures Apply(m + t, p) == ItemOpen + m + ItemClose + ReplaceAll(t, IsLineTerminator(m[|m| - 1]), p)
  {
    var s := m + t;
    assert s[..|m|] == m && s[|m|..] == t;
    if p == NumberedItem {
      NumberedHitComplete(s, |m|);
    } else {
      BulletHitComplete(s, |m|);
    }
  }

  /** Away from a line start, the list passes copy the rest of the line. */
  lemma RestOfLineKept(p: Pattern, line: string, t: string)
    requires p == NumberedItem || p == BulletItem
    requires NoLineTerminator(line)
    ensures ReplaceAll(line + t, false, p) == line + ReplaceAll(t, false, p)
  {
    var s := line + t;
    forall i | 0 <= i < |line| ensures NoHitAt(s, i, false, p) {
      if i > 0 {
        assert s[i - 1] == line[i - 1];
      }
    }
    ReplaceAllCopies(s, |line|, false, p);
    assert s[..|line|] == line && s[|line|..] == t;
    if |line| > 0 {
      assert s[|line| - 1] == line[|line| - 1];
    }
  }

  /** A line that does not start a list item and holds no `*` and no line
      terminator. */
  predicate PlainLine(s: string) {
    && '*' !in s
    && NoLineTerminator(s)
    && (s == [] || (!IsDigit(s[0]) && !IsBulletChar(s[0])))
  }

  /** The list patterns can only match at a line start, on a digit or a
      bullet character. */
  lemma ListHitNeedsMarkerChar(p: Pattern, s: string, f: bool)
    requires p == NumberedItem || p == BulletItem
    ensures HitAt(p, s, f).Match? ==> f && s != [] && (IsDigit(s[0]) || IsBulletChar(s[0]))
  {
    var h := HitAt(p, s, f);
    if h.Match? {
      if p == NumberedItem {
        assert Run(s[..h.len], Digit) > 0;
      }
      assert s[..h.len][0] == s[0];
    }
  }

  /** In a plain line followed by newlines, no line start holds a digit or
      a bullet character. */
  lemma NoMarkerInPlainLine(s: string, nl: string)
    requires PlainLine(s)
    requires nl == "\n" || nl == "\n\n"
    ensures var u := s + nl;
      forall i :: 0 <= i < |u| ==> !(LineStartAt(u, i, true) && (IsDigit(u[i]) || IsBulletChar(u[i])))
  {
    var u := s + nl;
    forall i | 0 <= i < |u| ensures !(LineStartAt(u, i, true) && (IsDigit(u[i]) || IsBulletChar(u[i]))) {
      if i < |s| {
        assert u[i] == s[i];
        if i > 0 {
          assert u[i - 1] == s[i - 1];
        }
      } else {
        assert u[i] == '\n';
      }
    }
  }

  /** No list pattern matches where there is no line start or no marker
      character. */
  lemma ListHitAtNonMarker(p: Pattern, u: string, i: nat)
    requires p == NumberedItem || p == BulletItem
    requires i < |u|
    requires !(LineStartAt(u, i, true) && (IsDigit(u[i]) || IsBulletChar(u[i])))
    ensures NoHitAt(u, i, true, p)
  {
    ListHitNeedsMarkerChar(p, u[i..], LineStartAt(u, i, true));
    assert u[i..][0] == u[i];
  }

  /** A plain line followed by a newline is shown without it, and one
      followed by two newlines keeps one `<br/>`: the last pass removes only
      the final break. */
  lemma TrailingNewlines(s: string)
    requires PlainLine(s)
    ensures FormatResponse(s + "\n") == s
    ensures FormatResponse(s + "\n\n") == s + Break
  {
    OneTrailingNewline(s);
    TwoTrailingNewlines(s);
  }

  lemma OneTrailingNewline(s: string)
    requires PlainLine(s)
    ensures FormatResponse(s + "\n") == s
  {
    TrailingNewlinesGo(s, "\n");
    NewlinesToBreaks();
    StripOfBreaks(s, Break);
    assert Break[..|Break| - |Break|] == [];
    assert s + [] == s;
  }

  lemma TwoTrailingNewlines(s: string)
    requires PlainLine(s)
    ensures FormatResponse(s + "\n\n") == s + Break
  {
    TrailingNewlinesGo(s, "\n\n");
    NewlinesToBreaks();
    StripOfBreaks(s, Break + Break);
    assert (Break + Break)[..|Break + Break| - |Break|] == Break;
  }

  /** One newline becomes one break, two become two. */
  lemma NewlinesToBreaks()
    ensures ReplaceAll("\n", false, Newline) == Break
    ensures ReplaceAll("\n\n", false, Newline) == Break + Break
  {
    assert ReplaceAll("\n", false, Newline) == Break + ReplaceAll([], false, Newline);
    assert ReplaceAll("\n\n", false, Newline) == Break + ReplaceAll("\n", true, Newline);
    assert ReplaceAll("\n", true, Newline) == Break + ReplaceAll([], false, Newline);
  }

  /** Passes one to four leave `s` followed by newlines unchanged, and the
      fifth turns only the newlines into breaks. */
  lemma TrailingNewlinesGo(s: string, nl: string)
    requires PlainLine(s)
    requires nl == "\n" || nl == "\n\n"
    ensures FormatResponse(s + nl) == StripTrailingBreak(s + ReplaceAll(nl, false, Newline))
  {
    var u := s + nl;
    assert '*' !in u;
    StarFreeFixed(u, TestCaseHeading);
    StarFreeFixed(u, BoldPair);
    ListPassesFixed(s, nl, NumberedItem);
    ListPassesFixed(s, nl, BulletItem);
    NewlinesBroken(s, nl);
  }

  /** The passes for `*` leave a text without `*` unchanged. */
  lemma StarFreeFixed(u: string, p: Pattern)
    requires p == TestCaseHeading || p == BoldPair
    requires '*' !in u
    ensures Apply(u, p) == u
  {
    NoStarPrefixCopied(u, [], p);
    assert u + [] == u;
  }

  /** The list passes leave a plain line followed by newlines unchanged. */
  lemma ListPassesFixed(s: string, nl: string, p: Pattern)
    requires PlainLine(s)
    requires nl == "\n" || nl == "\n\n"
    requires p == NumberedItem || p == BulletItem
    ensures Apply(s + nl, p) == s + nl
  {
    var u := s + nl;
    NoMarkerInPlainLine(s, nl);
    forall i | 0 <= i < |u| ensures NoHitAt(u, i, true, p) {
      ListHitAtNonMarker(p, u, i);
    }
    ReplaceAllUnchangedIff(u, true, p);
  }

  /** The newline pass copies a plain line and turns the newlines behind it
      into breaks. */
  lemma NewlinesBroken(s: string, nl: string)
    requires PlainLine(s)
    requires nl == "\n" || nl == "\n\n"
    ensures Apply(s + nl, Newline) == s + ReplaceAll(nl, false, Newline)
  {
    var u := s + nl;
    forall i | 0 <= i < |s| ensures NoHitAt(u, i, true, Newline) {
      assert u[i..][0] == s[i];
    }
    ReplaceAllCopies(u, |s|, true, Newline);
    assert u[..|s|] == s && u[|s|..] == nl;
    LineStartIgnored(nl, LineStartAt(u, |s|, true), false, Newline);
  }

  /** `s` followed by one or two breaks loses exactly the last one. */
  lemma StripOfBreaks(s: string, tail: string)
    requires tail == Break || tail == Break + Break
    ensures StripTrailingBreak(s + tail) == s + tail[..|tail| - |Break|]
  {
    var u := s + tail;
    var t := TrimEnd(u);
    assert u[|u| - 1] == '>';
    forall q | |t| <= q < |u| ensures IsSpace(u[q]) {
      assert u[q] == u[|t|..][q - |t|];
    }
    assert t == u;
    assert u[|u| - |Break|..] == Break;
    StripMatchesFromEnd(u);
    assert u[..|u| - |Break|] == s + tail[..|tail| - |Break|];
  }

  /** What `AiResponseDisplay` renders: nothing for an empty result,
      otherwise the formatted reply. */
  function DisplayedMarkup(result: string): (r: Option<string>)
    ensures r.Some? <==> result != ""
    ensures r.Some? ==> r.value == FormatResponse(result) && '\n' !in r.value
  {
    if result == "" then None else Some(FormatResponse(result))
  }
}
