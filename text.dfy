/** The pieces of the ECMAScript string library that the itinerary parser leans on:
    the character classes `\s`, `\d` and `.` of its regular expressions, `trim`,
    `includes`, `split('\n')` and the decimal reading done by `parseInt`. */
module Text {

  /** `\s` in a regular expression, and the set `String.prototype.trim` removes:
      the ECMAScript WhiteSpace and LineTerminator code points. */
  predicate IsSpace(c: char) {
    c == '\t' || c == '\n' || c == '\U{B}' || c == '\U{C}' || c == '\r' || c == ' '
    || c == '\U{A0}' || c == '\U{1680}' || ('\U{2000}' <= c <= '\U{200A}')
    || c == '\U{2028}' || c == '\U{2029}' || c == '\U{202F}' || c == '\U{205F}'
    || c == '\U{3000}' || c == '\U{FEFF}'
  }

  /** The line terminators: the only code points `.` refuses to match. */
  predicate IsTerminator(c: char) {
    c == '\n' || c == '\r' || c == '\U{2028}' || c == '\U{2029}'
  }

  /** `.`: any code point but a line terminator. */
  predicate IsDot(c: char) {
    !IsTerminator(c)
  }

  /** `\d`: an ASCII decimal digit. */
  predicate IsDigit(c: char) {
    '0' <= c <= '9'
  }

  /** Every code point of `s` is in the class `p`. */
  predicate Every(s: string, p: char -> bool)
    decreases |s|
  {
    |s| == 0 || (p(s[0]) && Every(s[1..], p))
  }

  lemma {:induction false} EveryIff(s: string, p: char -> bool)
    ensures Every(s, p) <==> forall i :: 0 <= i < |s| ==> p(s[i])
    decreases |s|
  {
    if |s| > 0 {
      EveryIff(s[1..], p);
      assert forall i :: 1 <= i < |s| ==> s[1..][i - 1] == s[i];
    }
  }

  lemma EveryAppend(a: string, b: string, p: char -> bool)
    ensures Every(a + b, p) <==> Every(a, p) && Every(b, p)
  {
    EveryIff(a + b, p);
    EveryIff(a, p);
    EveryIff(b, p);
    if Every(a, p) && Every(b, p) {
      forall i | 0 <= i < |a + b| ensures p((a + b)[i]) {
        if i >= |a| { assert (a + b)[i] == b[i - |a|]; }
      }
    }
    if Every(a + b, p) {
      forall i | 0 <= i < |a| ensures p(a[i]) { assert (a + b)[i] == a[i]; }
      forall i | 0 <= i < |b| ensures p(b[i]) { assert (a + b)[|a| + i] == b[i]; }
    }
  }

  predicate AllSpace(s: string) { Every(s, IsSpace) }
  predicate AllDigits(s: string) { Every(s, IsDigit) }
  predicate NoTerminator(s: string) { Every(s, IsDot) }

  /** The length of the longest whitespace prefix of `s`: what a greedy `\s*` consumes. */
  function SpanSpace(s: string): (n: nat)
    ensures n <= |s| && AllSpace(s[..n])
    ensures n == |s| || !IsSpace(s[n])
    decreases |s|
  {
    if |s| > 0 && IsSpace(s[0]) then
      var m := SpanSpace(s[1..]);
      assert s[..1 + m][1..] == s[1..][..m];
      1 + m
    else 0
  }

  /** The length of the longest digit prefix of `s`: what a greedy `\d+` consumes. */
  function SpanDigits(s: string): (n: nat)
    ensures n <= |s| && AllDigits(s[..n])
    ensures n == |s| || !IsDigit(s[n])
    decreases |s|
  {
    if |s| > 0 && IsDigit(s[0]) then
      var m := SpanDigits(s[1..]);
      assert s[..1 + m][1..] == s[1..][..m];
      1 + m
    else 0
  }

  /** A whitespace run in front of `t` is consumed whole by `\s*`, and then it goes on into `t`. */
  lemma {:induction false} SpanSpaceAppend(w: string, t: string)
    requires AllSpace(w)
    ensures SpanSpace(w + t) == |w| + SpanSpace(t)
    decreases |w|
  {
    if w != [] {
      assert (w + t)[1..] == w[1..] + t;
      SpanSpaceAppend(w[1..], t);
    } else {
      assert w + t == t;
    }
  }

  /** A digit run in front of `t` is consumed whole by `\d+`, and then it goes on into `t`. */
  lemma {:induction false} SpanDigitsAppend(ds: string, t: string)
    requires AllDigits(ds)
    ensures SpanDigits(ds + t) == |ds| + SpanDigits(t)
    decreases |ds|
  {
    if ds != [] {
      assert (ds + t)[1..] == ds[1..] + t;
      SpanDigitsAppend(ds[1..], t);
    } else {
      assert ds + t == t;
    }
  }

  /** `String.prototype.trimStart`. */
  function TrimStart(s: string): string
  {
    s[SpanSpace(s)..]
  }

  /** `String.prototype.trimEnd`. */
  function TrimEnd(s: string): (r: string)
    ensures |r| <= |s| && r == s[..|r|] && AllSpace(s[|r|..])
    ensures r == [] || !IsSpace(r[|r| - 1])
    decreases |s|
  {
    if |s| > 0 && IsSpace(s[|s| - 1]) then
      var r := TrimEnd(s[..|s| - 1]);
      assert s[|r|..] == s[..|s| - 1][|r|..] + [s[|s| - 1]];
      EveryAppend(s[..|s| - 1][|r|..], [s[|s| - 1]], IsSpace);
      r
    else s
  }

  /** `String.prototype.trim`. */
  function Trim(s: string): string
  {
    TrimEnd(TrimStart(s))
  }

  /** `t` is `s` with a whitespace run cut from each end and nothing else removed:
      `t` is the slice `s[a..a + |t|]` with only whitespace outside it. */
  ghost predicate TrimmedSlice(s: string, t: string, a: int) {
    0 <= a <= |s| - |t| && t == s[a..a + |t|] && AllSpace(s[..a]) && AllSpace(s[a + |t|..])
  }

  /** Trimming keeps the slice of `s` between its first and its last non-whitespace code
      point, and that slice neither starts nor ends with whitespace. */
  lemma TrimSpec(s: string)
    ensures exists a :: TrimmedSlice(s, Trim(s), a)
    ensures Trim(s) == [] || (!IsSpace(Trim(s)[0]) && !IsSpace(Trim(s)[|Trim(s)| - 1]))
  {
    var a := SpanSpace(s);
    var r := Trim(s);
    assert s[a..][..|r|] == s[a..a + |r|];
    assert s[a..][|r|..] == s[a + |r|..];
    assert TrimmedSlice(s, r, a);
    assert r != [] ==> r[0] == s[a];
  }

  /** Whitespace in front of a string makes no difference to its trimmed form. */
  lemma TrimSpacePrefix(w: string, t: string)
    requires AllSpace(w)
    ensures Trim(w + t) == Trim(t)
  {
    SpanSpaceAppend(w, t);
    assert (w + t)[|w| + SpanSpace(t)..] == t[SpanSpace(t)..];
  }

  /** Text after a code point that is not whitespace makes no difference to what `\s*`
      consumes. */
  lemma {:induction false} SpanSpaceStops(t: string, u: string)
    requires SpanSpace(t) < |t|
    ensures SpanSpace(t + u) == SpanSpace(t)
    decreases |t|
  {
    if IsSpace(t[0]) {
      assert (t + u)[1..] == t[1..] + u;
      SpanSpaceStops(t[1..], u);
    }
  }

  /** Whitespace at the end of a string is all cut by `trimEnd`. */
  lemma {:induction false} TrimEndSpaceSuffix(x: string, w: string)
    requires AllSpace(w)
    ensures TrimEnd(x + w) == TrimEnd(x)
    decreases |w|
  {
    if w == [] {
      assert x + w == x;
    } else {
      var init := w[..|w| - 1];
      assert w == init + [w[|w| - 1]];
      EveryAppend(init, [w[|w| - 1]], IsSpace);
      assert (x + w)[..|x + w| - 1] == x + init;
      TrimEndSpaceSuffix(x, init);
    }
  }

  /** Whitespace behind a string makes no difference to its trimmed form. */
  lemma TrimSpaceSuffix(t: string, w: string)
    requires AllSpace(w)
    ensures Trim(t + w) == Trim(t)
  {
    var a := SpanSpace(t);
    if a < |t| {
      SpanSpaceStops(t, w);
      assert (t + w)[a..] == t[a..] + w;
      TrimEndSpaceSuffix(t[a..], w);
    } else {
      assert t[..a] == t;
      SpanSpaceAppend(t, w);
      SpanSpaceAppend(w, []);
      assert w + [] == w;
    }
  }

  /** A trimmed string is its own trimmed form. */
  lemma TrimIdempotent(s: string)
    ensures Trim(Trim(s)) == Trim(s)
  {
    var r := Trim(s);
    TrimSpec(s);
    if r != [] {
      assert SpanSpace(r) == 0;
      assert TrimStart(r) == r;
      assert TrimEnd(r) == r;
    }
  }

  /** `trim()`, with what it leaves behind: a string that neither starts nor ends with
      whitespace, and that trimming leaves alone. */
  function Trimmed(s: string): (t: string)
    ensures t == Trim(s)
    ensures t == [] || (!IsSpace(t[0]) && !IsSpace(t[|t| - 1]))
    ensures Trim(t) == t
  {
    TrimSpec(s);
    TrimIdempotent(s);
    Trim(s)
  }

  predicate StartsWith(s: string, p: string) {
    |p| <= |s| && s[..|p|] == p
  }

  /** `p` occurs in `s` starting at index `i`. */
  predicate OccursAt(s: string, p: string, i: int) {
    0 <= i <= |s| - |p| && s[i..i + |p|] == p
  }

  /** `String.prototype.includes`. */
  function Contains(s: string, p: string): (b: bool)
    decreases |s|
  {
    if |s| < |p| then false
    else if s[..|p|] == p then true
    else Contains(s[1..], p)
  }

  /** `includes` reports exactly whether the pattern occurs somewhere. */
  lemma {:induction false} ContainsSpec(s: string, p: string)
    ensures Contains(s, p) <==> exists i :: OccursAt(s, p, i)
    decreases |s|
  {
    if |s| < |p| {
    } else if s[..|p|] == p {
      assert OccursAt(s, p, 0);
    } else {
      ContainsSpec(s[1..], p);
      if i :| OccursAt(s, p, i) {
        assert i != 0;
        assert s[1..][i - 1..i - 1 + |p|] == s[i..i + |p|];
        assert OccursAt(s[1..], p, i - 1);
      }
      if i :| OccursAt(s[1..], p, i) {
        assert s[1..][i..i + |p|] == s[i + 1..i + 1 + |p|];
        assert OccursAt(s, p, i + 1);
      }
    }
  }

  /** The first index of `c` in `s`. */
  function IndexOf(s: string, c: char): (i: nat)
    requires c in s
    ensures i < |s| && s[i] == c && c !in s[..i]
  {
    if s[0] == c then 0 else
      var i := IndexOf(s[1..], c);
      assert s[..i + 1] == [s[0]] + s[1..][..i];
      i + 1
  }

  /** `Array.prototype.join('\n')`. */
  function Join(lines: seq<string>): string
    decreases |lines|
  {
    if |lines| == 0 then []
    else if |lines| == 1 then lines[0]
    else lines[0] + "\n" + Join(lines[1..])
  }

  /** `String.prototype.split('\n')`: the pieces between newline characters, at least one,
      none holding a newline, which joined with newlines give back the text. */
  function Split(s: string): (lines: seq<string>)
    ensures |lines| > 0
    ensures forall k :: 0 <= k < |lines| ==> '\n' !in lines[k]
    ensures Join(lines) == s
    decreases |s|
  {
    if '\n' in s then
      var i := IndexOf(s, '\n');
      var rest := Split(s[i + 1..]);
      assert s == s[..i] + "\n" + s[i + 1..];
      [s[..i]] + rest
    else [s]
  }

  /** Splitting undoes joining, for lines that hold no newline. */
  lemma {:induction false} SplitJoin(lines: seq<string>)
    requires |lines| > 0
    requires forall k :: 0 <= k < |lines| ==> '\n' !in lines[k]
    ensures Split(Join(lines)) == lines
    decreases |lines|
  {
    if |lines| == 1 {
      assert Join(lines) == lines[0];
    } else {
      var s := Join(lines);
      var head := lines[0];
      assert s == head + "\n" + Join(lines[1..]);
      assert s[|head|] == '\n';
      assert s[..|head|] == head;
      assert IndexOf(s, '\n') == |head|;
      assert s[|head| + 1..] == Join(lines[1..]);
      SplitJoin(lines[1..]);
      assert lines == [head] + lines[1..];
    }
  }

  /** The number `parseInt` reads from a run of decimal digits. */
  function DigitsValue(ds: string): nat
    requires AllDigits(ds)
    decreases |ds|
  {
    if |ds| == 0 then 0
    else
      var init, last := ds[..|ds| - 1], ds[|ds| - 1];
      assert ds == init + [last];
      EveryAppend(init, [last], IsDigit);
      10 * DigitsValue(init) + (last as int - '0' as int)
  }

  /** Leading zeros do not change the number `parseInt` reads: `007` reads as 7. */
  lemma {:induction false} LeadingZero(ds: string)
    requires AllDigits(ds)
    ensures AllDigits("0" + ds) && DigitsValue("0" + ds) == DigitsValue(ds)
    decreases |ds|
  {
    EveryAppend("0", ds, IsDigit);
    if |ds| > 0 {
      var init := ds[..|ds| - 1];
      assert ds == init + [ds[|ds| - 1]];
      EveryAppend(init, [ds[|ds| - 1]], IsDigit);
      LeadingZero(init);
      assert ("0" + ds)[..|ds|] == "0" + init;
    }
  }
}
