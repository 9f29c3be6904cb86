/** The JavaScript string built-ins the application relies on: the regular
    expression classes `\d` and `\s`, the line terminators that `^` looks
    behind for under the `m` flag, `String.prototype.trim`, `split` on a
    one-character separator, `Array.prototype.join`, and the decimal form a
    template literal gives a non-negative integer. */
module JsText {

  datatype Option<+T> = None | Some(value: T)

  datatype Result<+T> = Ok(value: T) | Err(message: string)

  /** The class `\d`. */
  predicate IsDigit(c: char) {
    '0' <= c <= '9'
  }

  /** An ECMAScript LineTerminator: LF, CR, LINE SEPARATOR, PARAGRAPH SEPARATOR. */
  predicate IsLineTerminator(c: char) {
    c == '\n' || c == '\r' || c == '\U{2028}' || c == '\U{2029}'
  }

  /** An ECMAScript WhiteSpace or LineTerminator: the class `\s`, and what
      `trim` strips. */
  predicate IsSpace(c: char) {
    || IsLineTerminator(c)
    || c == '\t' || c == '\U{000B}' || c == '\U{000C}' || c == ' '
    || c == '\U{00A0}' || c == '\U{1680}' || '\U{2000}' <= c <= '\U{200A}'
    || c == '\U{202F}' || c == '\U{205F}' || c == '\U{3000}' || c == '\U{FEFF}'
  }

  predicate AllSpace(s: string) {
    forall i :: 0 <= i < |s| ==> IsSpace(s[i])
  }

  predicate AllDigits(s: string) {
    forall i :: 0 <= i < |s| ==> IsDigit(s[i])
  }

  predicate NoLineTerminator(s: string) {
    forall i :: 0 <= i < |s| ==> !IsLineTerminator(s[i])
  }

  // ---------------------------------------------------------------- trim

  /** `s` without its trailing whitespace. */
  function TrimEnd(s: string): (r: string)
    ensures |r| <= |s| && r == s[..|r|]
    ensures AllSpace(s[|r|..])
    ensures r == [] || !IsSpace(r[|r| - 1])
    decreases |s|
  {
    if s != [] && IsSpace(s[|s| - 1]) then
      var r := TrimEnd(s[..|s| - 1]);
      assert s[|r|..] == s[..|s| - 1][|r|..] + [s[|s| - 1]];
      r
    else
      s
  }

  /** `s` without its leading whitespace. */
  function TrimStart(s: string): (r: string)
    ensures |r| <= |s| && r == s[|s| - |r|..]
    ensures AllSpace(s[..|s| - |r|])
    ensures r == [] || !IsSpace(r[0])
    decreases |s|
  {
    if s != [] && IsSpace(s[0]) then
      var r := TrimStart(s[1..]);
      assert s[..|s| - |r|] == [s[0]] + s[1..][..|s| - 1 - |r|];
      r
    else
      s
  }

  /** `String.prototype.trim`: the text with the whitespace at both ends
      removed. It is empty exactly when the text is all whitespace (the test
      `context.trim() === ''`). */
  function Trim(s: string): (r: string)
    ensures exists i :: TrimmedAt(s, i, r)
    ensures r == [] || (!IsSpace(r[0]) && !IsSpace(r[|r| - 1]))
    ensures r == [] <==> AllSpace(s)
  {
    var e := TrimEnd(s);
    var r := TrimStart(e);
    TrimmedWithin(s, e, r);
    TrimmedLast(e, r);
    BlankTrimsEmpty(s, e, r);
    r
  }

  /** What trimming the end and then the start leaves sits between two
      runs of whitespace. */
  lemma TrimmedWithin(s: string, e: string, r: string)
    requires |e| <= |s| && e == s[..|e|] && AllSpace(s[|e|..])
    requires |r| <= |e| && r == e[|e| - |r|..] && AllSpace(e[..|e| - |r|])
    ensures TrimmedAt(s, |e| - |r|, r)
  {
    var i := |e| - |r|;
    assert s[i..i + |r|] == e[i..];
    assert s[..i] == e[..i];
  }

  lemma TrimmedLast(e: string, r: string)
    requires e == [] || !IsSpace(e[|e| - 1])
    requires |r| <= |e| && r == e[|e| - |r|..]
    ensures r == [] || !IsSpace(r[|r| - 1])
  {
    if r != [] {
      assert r[|r| - 1] == e[|e| - 1];
    }
  }

  lemma BlankTrimsEmpty(s: string, e: string, r: string)
    requires |e| <= |s| && e == s[..|e|] && AllSpace(s[|e|..])
    requires e == [] || !IsSpace(e[|e| - 1])
    requires |r| <= |e| && AllSpace(e[..|e| - |r|])
    ensures r == [] <==> AllSpace(s)
  {
    if r == [] {
      assert e[..|e|] == e;
      assert e == [];
      assert s[|e|..] == s;
    }
    if AllSpace(s) {
      assert AllSpace(e);
    }
  }

  /** `r` sits at index `i` of `s` with nothing but whitespace around it. */
  ghost predicate TrimmedAt(s: string, i: int, r: string) {
    0 <= i && i + |r| <= |s| && s[i..i + |r|] == r && AllSpace(s[..i]) && AllSpace(s[i + |r|..])
  }

  // ------------------------------------------------------- split and join

  /** Index of the first `c` in `s`, or `|s|` when there is none. */
  function IndexOf(s: string, c: char): (i: nat)
    ensures i <= |s|
    ensures i < |s| ==> s[i] == c
    ensures forall j :: 0 <= j < i ==> s[j] != c
  {
    if s == [] || s[0] == c then 0 else 1 + IndexOf(s[1..], c)
  }

  /** `s.split(c)` for a one-character separator: the pieces between the
      occurrences of `c`, including empty ones. */
  function Split(s: string, c: char): (pieces: seq<string>)
    ensures |pieces| >= 1
    ensures forall k :: 0 <= k < |pieces| ==> c !in pieces[k]
    decreases |s|
  {
    var i := IndexOf(s, c);
    if i == |s| then
      [s]
    else
      var rest := Split(s[i + 1..], c);
      [s[..i]] + rest
  }

  /** `pieces.join(sep)`: the pieces with `sep` between consecutive ones;
      no pieces give the empty string. */
  function Join(pieces: seq<string>, sep: string): string {
    if |pieces| == 0 then ""
    else if |pieces| == 1 then pieces[0]
    else pieces[0] + sep + Join(pieces[1..], sep)
  }

  /** Joining the pieces of a split with the same separator restores the
      string. */
  lemma {:induction false} JoinSplit(s: string, c: char)
    ensures Join(Split(s, c), [c]) == s
    decreases |s|
  {
    var i := IndexOf(s, c);
    if i < |s| {
      var rest := s[i + 1..];
      var pieces := Split(rest, c);
      JoinSplit(rest, c);
      var all := [s[..i]] + pieces;
      assert Split(s, c) == all;
      assert all[0] == s[..i] && all[1..] == pieces;
      assert Join(all, [c]) == s[..i] + [c] + rest;
      assert s == s[..i] + [c] + rest;
    }
  }

  /** Splitting a join of pieces that do not contain the separator gives
      back the pieces. */
  lemma {:induction false} SplitJoin(pieces: seq<string>, c: char)
    requires |pieces| >= 1
    requires forall k :: 0 <= k < |pieces| ==> c !in pieces[k]
    ensures Split(Join(pieces, [c]), c) == pieces
    decreases |pieces|
  {
    var p := pieces[0];
    assert IndexOf(p, c) == |p|;
    if |pieces| > 1 {
      var tail := Join(pieces[1..], [c]);
      var s := p + [c] + tail;
      IndexOfAfter(p, c, tail);
      assert s[|p| + 1..] == tail;
      assert s[..|p|] == p;
      SplitJoin(pieces[1..], c);
      assert pieces == [p] + pieces[1..];
    }
  }

  lemma IndexOfAfter(p: string, c: char, tail: string)
    requires c !in p
    ensures IndexOf(p + [c] + tail, c) == |p|
  {
    var s := p + [c] + tail;
    assert s[|p|] == c;
    assert forall j :: 0 <= j < |p| ==> s[j] == p[j];
  }

  /** The join of one piece is that piece; of none, the empty string. */
  lemma JoinSmall(pieces: seq<string>, sep: string)
    requires |pieces| <= 1
    ensures Join(pieces, sep) == if pieces == [] then "" else pieces[0]
  {
  }

  /** `split(',')[1]`: the text between the first and any second comma, or
      `None` (JavaScript's `undefined`) when there is no comma. */
  function SecondField(s: string, c: char): (r: Option<string>)
    ensures r.None? <==> c !in s
    ensures r.Some? ==> c !in r.value && exists i :: FieldAfter(s, c, i, r.value)
  {
    var pieces := Split(s, c);
    if |pieces| >= 2 then
      var i := IndexOf(s, c);
      assert pieces[1] == Split(s[i + 1..], c)[0];
      FirstPieceIsPrefix(s[i + 1..], c);
      assert c !in s[..i] by {
        forall j | 0 <= j < i ensures s[..i][j] != c { }
      }
      assert FieldAfter(s, c, i, pieces[1]);
      Some(pieces[1])
    else
      assert IndexOf(s, c) == |s|;
      assert c !in s by {
        forall j | 0 <= j < |s| ensures s[j] != c { }
      }
      None
  }

  /** `f` is the text that follows the first `c` of `s`, at index `i`, up to
      the next `c` or the end. */
  ghost predicate FieldAfter(s: string, c: char, i: int, f: string) {
    && 0 <= i < |s| && s[i] == c && c !in s[..i]
    && i + 1 + |f| <= |s| && s[i + 1..i + 1 + |f|] == f
    && (i + 1 + |f| == |s| || s[i + 1 + |f|] == c)
  }

  lemma FirstPieceIsPrefix(s: string, c: char)
    ensures var p := Split(s, c)[0]; |p| <= |s| && s[..|p|] == p && (|p| == |s| || s[|p|] == c)
  {
  }

  /** What a template literal writes for a value that is a string or
      absent: the string itself, or `"undefined"`. */
  function Interpolate(value: Option<string>): string {
    match value
    case Some(v) => v
    case None => "undefined"
  }

  // ------------------------------------------------------ decimal numbers

  function DigitChar(d: nat): char
    requires d < 10
  {
    ('0' as int + d) as char
  }

  /** The decimal form `${n}` of a non-negative integer. */
  function NatToDecimal(n: nat): (r: string)
    ensures |r| >= 1 && AllDigits(r)
    ensures |r| > 1 ==> r[0] != '0'
  {
    if n < 10 then [DigitChar(n)] else NatToDecimal(n / 10) + [DigitChar(n % 10)]
  }

  /** The number a string of decimal digits denotes. */
  function DecimalValue(s: string): nat
    requires AllDigits(s)
  {
    if s == [] then 0 else 10 * DecimalValue(s[..|s| - 1]) + (s[|s| - 1] as int - '0' as int)
  }

  /** Reading back the decimal form gives the number. */
  lemma {:induction false} DecimalRoundTrip(n: nat)
    ensures DecimalValue(NatToDecimal(n)) == n
  {
    if n >= 10 {
      DecimalRoundTrip(n / 10);
      var r := NatToDecimal(n);
      assert r[..|r| - 1] == NatToDecimal(n / 10);
    }
  }
}
