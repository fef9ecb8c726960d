/**
  `parseMarkdown` (main.ts:106-112): four global substitutions applied in order,
  `**X**` to strong emphasis, `*X*` to emphasis, `` `X` `` to inline code, and
  every line feed to `<br>`. Each of the first three is a JavaScript global
  `replace` with a lazy `(.*?)`, where `.` refuses line terminators; it is
  modelled as a left-to-right scanner: at an opening delimiter, find the
  nearest closing delimiter on the same line; when there is one, wrap the span
  and resume after it, otherwise copy one character and move on.
*/
module Markdown {
  import opened Wrappers
  import opened JsText

  /** A delimiter of one or two characters, as all three used here are. */
  predicate Short(d: string) {
    |d| == 1 || |d| == 2
  }

  /** The delimiter `d` occurs in `t` at position `j`. */
  predicate DelimAt(t: string, j: nat, d: string)
    requires Short(d)
  {
    j + |d| <= |t| && t[j] == d[0] && (|d| == 1 || t[j + 1] == d[1])
  }

  /** No character of `c` is a character of the delimiter `d`. */
  predicate Avoids(c: string, d: string)
    requires Short(d)
  {
    forall k :: 0 <= k < |c| ==> c[k] != d[0] && c[k] != d[|d| - 1]
  }

  /** A short delimiter free of line terminators, as all three used here are. */
  predicate OnOneLine(d: string) {
    Short(d) && forall k :: 0 <= k < |d| ==> !IsLineTerminator(d[k])
  }

  /** The first line terminator at or after `j`, or the end of `t`. */
  function NextBreak(t: string, j: nat): (r: nat)
    requires j <= |t|
    ensures j <= r <= |t|
    ensures forall k :: j <= k < r ==> !IsLineTerminator(t[k])
    ensures r == |t| || IsLineTerminator(t[r])
    decreases |t| - j
  {
    if j == |t| || IsLineTerminator(t[j]) then j else NextBreak(t, j + 1)
  }

  /** The lazy `(.*?)` followed by the closing delimiter: the nearest `d` at or
      after `j` with no line terminator in between. */
  function SpanEnd(t: string, j: nat, d: string): (r: Option<nat>)
    requires Short(d) && j <= |t|
    ensures r.Some? ==> j <= r.value && r.value + |d| <= |t|
    decreases |t| - j
  {
    if DelimAt(t, j, d) then Some(j)
    else if j == |t| || IsLineTerminator(t[j]) then None
    else SpanEnd(t, j + 1, d)
  }

  /** The span found is the shortest one on the current line: the closing delimiter
      is the first one at or after `j`, and no line terminator comes before it;
      when none is found, no delimiter occurs before the end of the line. */
  lemma {:induction false} SpanEndNearest(t: string, j: nat, d: string)
    requires Short(d) && j <= |t|
    ensures var r := SpanEnd(t, j, d);
      && (r.Some? ==> r.value <= NextBreak(t, j) && DelimAt(t, r.value, d))
      && (r.Some? ==> forall k :: j <= k < r.value ==> !DelimAt(t, k, d))
      && (r.None? ==> forall k :: j <= k <= NextBreak(t, j) ==> !DelimAt(t, k, d))
    decreases |t| - j
  {
    if !DelimAt(t, j, d) && j < |t| && !IsLineTerminator(t[j]) {
      SpanEndNearest(t, j + 1, d);
    }
  }

  /** The scanner from position `i` of `t` on: wrap the span that opens at `i`
      if it closes on the same line, otherwise copy the character at `i`. */
  function SubstituteFrom(t: string, i: nat, d: string, open: string, close: string): string
    requires Short(d) && i <= |t|
    decreases |t| - i
  {
    if i == |t| then ""
    else if DelimAt(t, i, d) && SpanEnd(t, i + |d|, d).Some? then
      var e := SpanEnd(t, i + |d|, d).value;
      open + t[i + |d|..e] + close + SubstituteFrom(t, e + |d|, d, open, close)
    else
      [t[i]] + SubstituteFrom(t, i + 1, d, open, close)
  }

  /** `t.replace(/d(.*?)d/g, open + "$1" + close)`. */
  function Substitute(t: string, d: string, open: string, close: string): string
    requires Short(d)
  {
    SubstituteFrom(t, 0, d, open, close)
  }

  /** The bold rule: `**` spans become `<strong>` elements. */
  function Strong(t: string): string {
    Substitute(t, "**", "<strong>", "</strong>")
  }

  /** The italic rule: `*` spans become `<em>` elements. */
  function Em(t: string): string {
    Substitute(t, "*", "<em>", "</em>")
  }

  /** The code rule: backtick spans become `<code>` elements. */
  function CodeSpans(t: string): string {
    Substitute(t, "`", "<code>", "</code>")
  }

  /** `t.replace(/\n/g, "<br>")`. */
  function Breaks(t: string): (r: string)
    ensures '\n' !in r
  {
    if |t| == 0 then ""
    else
      (if t[0] == '\n' then "<br>" else [t[0]]) + Breaks(t[1..])
  }

  /** `parseMarkdown`: bold first, then italic, then inline code, then line breaks. */
  function ParseMarkdown(t: string): (r: string)
    ensures '\n' !in r
  {
    Breaks(CodeSpans(Em(Strong(t))))
  }

  /** Regrouping a concatenation, as a fact the step lemmas below name explicitly. */
  lemma Assoc(x: string, y: string, z: string)
    ensures x + (y + z) == (x + y) + z
  {
  }

  /** A slice of a prefix is the same slice of the whole text. */
  lemma SliceTake(t: string, n: nat, x: nat, y: nat)
    requires x <= y <= n <= |t|
    ensures t[x..y] == t[..n][x..y]
  {
  }

  /** From a position after which the delimiter's first character does not occur,
      the scanner copies the rest of the text. */
  lemma {:induction false} CopyFrom(t: string, i: nat, d: string, open: string, close: string)
    requires Short(d) && i <= |t|
    requires forall k :: i <= k < |t| ==> t[k] != d[0]
    ensures SubstituteFrom(t, i, d, open, close) == t[i..]
    decreases |t| - i
  {
    if i < |t| {
      CopyFrom(t, i + 1, d, open, close);
      assert t[i..] == [t[i]] + t[i + 1..];
    }
  }

  /** Text without the delimiter's first character is copied unchanged. */
  lemma SubstituteIdentity(t: string, d: string, open: string, close: string)
    requires Short(d) && d[0] !in t
    ensures Substitute(t, d, open, close) == t
  {
    CopyFrom(t, 0, d, open, close);
  }

  /** Text without a line feed passes the last substitution unchanged. */
  lemma {:induction false} BreaksIdentity(t: string)
    requires '\n' !in t
    ensures Breaks(t) == t
  {
    if |t| > 0 {
      assert t[0] in t;
      assert forall k :: 0 <= k < |t[1..]| ==> t[1..][k] in t;
      BreaksIdentity(t[1..]);
      assert [t[0]] + t[1..] == t;
    }
  }

  lemma {:induction false} BreaksAppend(a: string, b: string)
    ensures Breaks(a + b) == Breaks(a) + Breaks(b)
  {
    if |a| > 0 {
      assert (a + b)[0] == a[0];
      assert (a + b)[1..] == a[1..] + b;
      BreaksAppend(a[1..], b);
    } else {
      assert a + b == b;
    }
  }

  /** Plain text, with no `*`, no backtick and no line feed, is returned unchanged. */
  lemma PlainTextUnchanged(t: string)
    requires '*' !in t && '`' !in t && '\n' !in t
    ensures ParseMarkdown(t) == t
  {
    SubstituteIdentity(t, "**", "<strong>", "</strong>");
    SubstituteIdentity(t, "*", "<em>", "</em>");
    SubstituteIdentity(t, "`", "<code>", "</code>");
    BreaksIdentity(t);
  }

  /** `q` is the text of `t` from position `o` on. */
  predicate SuffixAt(t: string, o: nat, q: string) {
    o <= |t| && t[o..] == q
  }

  /** Looking for the delimiter at position `x = o + j` of `t`, or at `j` in the text
      `q` that follows `o`, is the same. */
  lemma DelimAtDrop(t: string, o: nat, q: string, x: nat, j: nat, d: string)
    requires Short(d) && SuffixAt(t, o, q) && x == o + j
    ensures DelimAt(t, x, d) == DelimAt(q, j, d)
  {
    if j + |d| <= |q| {
      assert q[j] == t[x];
      assert |d| == 2 ==> q[j + 1] == t[x + 1];
    }
  }

  /** The search for a closing delimiter never looks back: from `x = o + j` in `t` it
      finds the closing delimiter it finds from `j` in `q`, moved by `o`. */
  lemma {:induction false} SpanEndDrop(t: string, o: nat, q: string, x: nat, j: nat, d: string)
    requires Short(d) && SuffixAt(t, o, q) && j <= |q| && x == o + j
    ensures SpanEnd(q, j, d).None? ==> SpanEnd(t, x, d).None?
    ensures SpanEnd(q, j, d).Some? ==> SpanEnd(t, x, d) == Some(o + SpanEnd(q, j, d).value)
    decreases |q| - j
  {
    DelimAtDrop(t, o, q, x, j, d);
    if j < |q| {
      assert q[j] == t[x];
      if !DelimAt(q, j, d) && !IsLineTerminator(q[j]) {
        SpanEndDrop(t, o, q, x + 1, j + 1, d);
      }
    }
  }

  /** One step of the scanner at an opening delimiter whose span closes at `e`. */
  lemma StepSpan(t: string, i: nat, e: nat, d: string, open: string, close: string)
    requires Short(d) && i < |t| && DelimAt(t, i, d) && SpanEnd(t, i + |d|, d) == Some(e)
    ensures SubstituteFrom(t, i, d, open, close) == open + t[i + |d|..e] + close + SubstituteFrom(t, e + |d|, d, open, close)
  {
  }

  /** One step of the scanner that copies the character at `i`. */
  lemma StepChar(t: string, i: nat, d: string, open: string, close: string)
    requires Short(d) && i < |t| && !(DelimAt(t, i, d) && SpanEnd(t, i + |d|, d).Some?)
    ensures SubstituteFrom(t, i, d, open, close) == [t[i]] + SubstituteFrom(t, i + 1, d, open, close)
  {
  }

  /** The lazy body stops at the nearest closing delimiter on the line: a closing
      delimiter at `e`, with no delimiter and no line terminator between `j` and
      `e`, is the one `SpanEnd` finds. */
  lemma {:induction false} SpanEndAt(t: string, j: nat, e: nat, d: string)
    requires Short(d) && j <= e && DelimAt(t, e, d)
    requires forall k :: j <= k < e ==> !DelimAt(t, k, d) && !IsLineTerminator(t[k])
    ensures SpanEnd(t, j, d) == Some(e)
    decreases e - j
  {
    if j < e {
      SpanEndAt(t, j + 1, e, d);
    }
  }

  /** With no delimiter up to the end of the line, no span closes. */
  lemma {:induction false} SpanEndNoneAt(t: string, j: nat, d: string)
    requires Short(d) && j <= |t|
    requires forall k :: j <= k <= NextBreak(t, j) ==> !DelimAt(t, k, d)
    ensures SpanEnd(t, j, d).None?
    decreases |t| - j
  {
    if j < |t| && !IsLineTerminator(t[j]) {
      assert NextBreak(t, j) == NextBreak(t, j + 1);
      SpanEndNoneAt(t, j + 1, d);
    }
  }

  /** The scanner at a delimiter whose nearest closing delimiter lies on the same
      line wraps the text between them and goes on after the closing delimiter.
      With `SpanEndNearest` this is the whole meaning of the lazy span. */
  lemma ScanWrapsSpan(t: string, i: nat, e: nat, d: string, open: string, close: string)
    requires Short(d) && DelimAt(t, i, d) && i + |d| <= e && DelimAt(t, e, d)
    requires forall k :: i + |d| <= k < e ==> !DelimAt(t, k, d) && !IsLineTerminator(t[k])
    ensures SubstituteFrom(t, i, d, open, close)
      == open + t[i + |d|..e] + close + SubstituteFrom(t, e + |d|, d, open, close)
  {
    SpanEndAt(t, i + |d|, e, d);
    StepSpan(t, i, e, d, open, close);
  }

  /** The scanner at a character that is no delimiter, or a delimiter with no
      closing one before the end of its line, copies that character. */
  lemma ScanCopies(t: string, i: nat, d: string, open: string, close: string)
    requires Short(d) && i < |t|
    requires !DelimAt(t, i, d) || forall k :: i + |d| <= k <= NextBreak(t, i + |d|) ==> !DelimAt(t, k, d)
    ensures SubstituteFrom(t, i, d, open, close) == [t[i]] + SubstituteFrom(t, i + 1, d, open, close)
  {
    if DelimAt(t, i, d) {
      SpanEndNoneAt(t, i + |d|, d);
    }
    StepChar(t, i, d, open, close);
  }

  /** The scan of `t` from `i` on is the scan of `q` from `k` on. */
  predicate DropAgrees(t: string, i: nat, q: string, k: nat, d: string, open: string, close: string)
    requires Short(d) && i <= |t| && k <= |q|
  {
    SubstituteFrom(t, i, d, open, close) == SubstituteFrom(q, k, d, open, close)
  }

  /** Two scans that copy the same character and go on alike are alike. */
  lemma SameCharStep(t: string, i: nat, q: string, k: nat, d: string, open: string, close: string)
    requires Short(d) && i < |t| && k < |q| && t[i] == q[k]
    requires !(DelimAt(t, i, d) && SpanEnd(t, i + |d|, d).Some?)
    requires !(DelimAt(q, k, d) && SpanEnd(q, k + |d|, d).Some?)
    requires DropAgrees(t, i + 1, q, k + 1, d, open, close)
    ensures DropAgrees(t, i, q, k, d, open, close)
  {
    StepChar(t, i, d, open, close);
    StepChar(q, k, d, open, close);
  }

  /** Two scans that wrap the same span and go on alike are alike. */
  lemma SameSpanStep(t: string, q: string, i: nat, e: nat, k: nat, f: nat, d: string, open: string, close: string)
    requires Short(d) && i < |t| && k < |q|
    requires DelimAt(t, i, d) && SpanEnd(t, i + |d|, d) == Some(e)
    requires DelimAt(q, k, d) && SpanEnd(q, k + |d|, d) == Some(f)
    requires t[i + |d|..e] == q[k + |d|..f]
    requires DropAgrees(t, e + |d|, q, f + |d|, d, open, close)
    ensures DropAgrees(t, i, q, k, d, open, close)
  {
    StepSpan(t, i, e, d, open, close);
    StepSpan(q, k, f, d, open, close);
  }

  /** A slice of `q` is the slice of `t` at the same place moved by `o`. */
  lemma SliceDrop(t: string, o: nat, q: string, x: nat, y: nat, j: nat, l: nat)
    requires SuffixAt(t, o, q) && j <= l <= |q| && x == o + j && y == o + l
    ensures t[x..y] == q[j..l]
  {
    assert q[j..l] == t[o..][j..l];
  }

  /** The scanner never looks back: from position `i = o + k` of `t` on it does what it
      does from `k` on, on the text `q` that follows `o`. */
  lemma {:induction false} SubstituteDrop(t: string, o: nat, q: string, i: nat, k: nat, d: string, open: string, close: string)
    requires Short(d) && SuffixAt(t, o, q) && k <= |q| && i == o + k
    ensures DropAgrees(t, i, q, k, d, open, close)
    decreases |q| - k, 1
  {
    if k < |q| {
      if DelimAt(q, k, d) && SpanEnd(q, k + |d|, d).Some? {
        DropAtSpan(t, o, q, i, k, d, open, close);
      } else {
        DropAtChar(t, o, q, i, k, d, open, close);
      }
    }
  }

  lemma {:induction false} DropAtSpan(t: string, o: nat, q: string, i: nat, k: nat, d: string, open: string, close: string)
    requires Short(d) && SuffixAt(t, o, q) && k < |q| && i == o + k
    requires DelimAt(q, k, d) && SpanEnd(q, k + |d|, d).Some?
    ensures DropAgrees(t, i, q, k, d, open, close)
    decreases |q| - k, 0
  {
    var e := SpanEnd(q, k + |d|, d).value;
    SpanAtDrop(t, o, q, i, k, e, d);
    SubstituteDrop(t, o, q, o + e + |d|, e + |d|, d, open, close);
    SameSpanStep(t, q, i, o + e, k, e, d, open, close);
  }

  /** A span of `q` found at `k` is found in `t` at `o + k`, with the same inner text. */
  lemma SpanAtDrop(t: string, o: nat, q: string, i: nat, k: nat, e: nat, d: string)
    requires Short(d) && SuffixAt(t, o, q) && k < |q| && i == o + k
    requires DelimAt(q, k, d) && SpanEnd(q, k + |d|, d) == Some(e)
    ensures e + |d| <= |q| && i < |t| && o + e + |d| <= |t|
    ensures DelimAt(t, i, d) && SpanEnd(t, i + |d|, d) == Some(o + e)
    ensures t[i + |d|..o + e] == q[k + |d|..e]
  {
    assert e + |d| <= |q|;
    DelimAtDrop(t, o, q, i, k, d);
    SpanEndDrop(t, o, q, i + |d|, k + |d|, d);
    SliceDrop(t, o, q, i + |d|, o + e, k + |d|, e);
  }

  lemma {:induction false} DropAtChar(t: string, o: nat, q: string, i: nat, k: nat, d: string, open: string, close: string)
    requires Short(d) && SuffixAt(t, o, q) && k < |q| && i == o + k
    requires !(DelimAt(q, k, d) && SpanEnd(q, k + |d|, d).Some?)
    ensures DropAgrees(t, i, q, k, d, open, close)
    decreases |q| - k, 0
  {
    DelimAtDrop(t, o, q, i, k, d);
    if DelimAt(q, k, d) {
      SpanEndDrop(t, o, q, i + |d|, k + |d|, d);
    }
    assert t[i] == q[k];
    SubstituteDrop(t, o, q, i + 1, k + 1, d, open, close);
    SameCharStep(t, i, q, k, d, open, close);
  }

  /** No span can cross position `n` of `t`: a line terminator stands there, or no
      character of the delimiter occurs from there on. */
  predicate Cut(t: string, n: nat, d: string)
    requires Short(d) && n <= |t|
  {
    (n < |t| && IsLineTerminator(t[n])) || forall k :: n <= k < |t| ==> t[k] != d[0] && t[k] != d[|d| - 1]
  }

  /** Before a cut, a delimiter is found in `t` where it is found in `t[..n]`. */
  lemma DelimAtTake(t: string, n: nat, j: nat, d: string)
    requires OnOneLine(d) && j <= n <= |t| && Cut(t, n, d)
    ensures DelimAt(t, j, d) == DelimAt(t[..n], j, d)
  {
    if j + |d| <= n {
      assert t[..n][j] == t[j];
      assert |d| == 2 ==> t[..n][j + 1] == t[j + 1];
    } else if j + |d| <= |t| {
      assert t[n] != d[n - j];
    }
  }

  /** Where no character of the delimiter occurs, no span closes. */
  lemma {:induction false} SpanEndNone(t: string, j: nat, d: string)
    requires Short(d) && j <= |t|
    requires forall k :: j <= k < |t| ==> t[k] != d[0] && t[k] != d[|d| - 1]
    ensures SpanEnd(t, j, d) == None
    decreases |t| - j
  {
    if j < |t| {
      if !IsLineTerminator(t[j]) {
        SpanEndNone(t, j + 1, d);
      }
    }
  }

  /** Before a cut, the search for a closing delimiter does not see past it. */
  lemma {:induction false} SpanEndTake(t: string, n: nat, j: nat, d: string)
    requires OnOneLine(d) && j <= n <= |t| && Cut(t, n, d)
    ensures SpanEnd(t, j, d) == SpanEnd(t[..n], j, d)
    decreases n - j
  {
    DelimAtTake(t, n, j, d);
    if j == n {
      if !(n < |t| && IsLineTerminator(t[n])) {
        SpanEndNone(t, j, d);
      }
    } else {
      assert t[..n][j] == t[j];
      if !DelimAt(t, j, d) && !IsLineTerminator(t[j]) {
        SpanEndTake(t, n, j + 1, d);
      }
    }
  }

  /** From position `i` on, the scan of `t` is the scan of `t[..n]` followed by `tail`. */
  predicate TakeAgrees(t: string, n: nat, i: nat, tail: string, d: string, open: string, close: string)
    requires Short(d) && i <= n <= |t|
  {
    SubstituteFrom(t, i, d, open, close) == SubstituteFrom(t[..n], i, d, open, close) + tail
  }

  /** A span wrapped alike in `t` and in `t[..n]` keeps the two scans in step. */
  lemma TakeSpanStep(t: string, n: nat, i: nat, e: nat, tail: string, d: string, open: string, close: string)
    requires Short(d) && i < n <= |t| && e + |d| <= n
    requires DelimAt(t, i, d) && SpanEnd(t, i + |d|, d) == Some(e)
    requires DelimAt(t[..n], i, d) && SpanEnd(t[..n], i + |d|, d) == Some(e)
    requires TakeAgrees(t, n, e + |d|, tail, d, open, close)
    ensures TakeAgrees(t, n, i, tail, d, open, close)
  {
    var a := t[..n];
    StepSpan(t, i, e, d, open, close);
    StepSpan(a, i, e, d, open, close);
    SliceTake(t, n, i + |d|, e);
    Assoc(open + a[i + |d|..e] + close, SubstituteFrom(a, e + |d|, d, open, close), tail);
  }

  /** A character copied alike from `t` and from `t[..n]` keeps the two scans in step. */
  lemma TakeCharStep(t: string, n: nat, i: nat, tail: string, d: string, open: string, close: string)
    requires Short(d) && i < n <= |t|
    requires !(DelimAt(t, i, d) && SpanEnd(t, i + |d|, d).Some?)
    requires !(DelimAt(t[..n], i, d) && SpanEnd(t[..n], i + |d|, d).Some?)
    requires TakeAgrees(t, n, i + 1, tail, d, open, close)
    ensures TakeAgrees(t, n, i, tail, d, open, close)
  {
    var a := t[..n];
    StepChar(t, i, d, open, close);
    StepChar(a, i, d, open, close);
    assert t[i] == a[i];
    Assoc([a[i]], SubstituteFrom(a, i + 1, d, open, close), tail);
  }

  /** Up to a cut at `n`, the scanner does on `t` what it does on `t[..n]`. */
  lemma {:induction false} SubstituteTake(t: string, n: nat, i: nat, d: string, open: string, close: string)
    requires OnOneLine(d) && i <= n <= |t| && Cut(t, n, d)
    ensures TakeAgrees(t, n, i, SubstituteFrom(t, n, d, open, close), d, open, close)
    decreases n - i, 1
  {
    if i < n {
      DelimAtTake(t, n, i, d);
      if DelimAt(t, i, d) {
        SpanEndTake(t, n, i + |d|, d);
      }
      if DelimAt(t, i, d) && SpanEnd(t, i + |d|, d).Some? {
        TakeAtSpan(t, n, i, d, open, close);
      } else {
        TakeAtChar(t, n, i, d, open, close);
      }
    }
  }

  lemma {:induction false} TakeAtSpan(t: string, n: nat, i: nat, d: string, open: string, close: string)
    requires OnOneLine(d) && i < n <= |t| && Cut(t, n, d)
    requires DelimAt(t, i, d) && SpanEnd(t, i + |d|, d).Some?
    requires DelimAt(t[..n], i, d) && SpanEnd(t[..n], i + |d|, d) == SpanEnd(t, i + |d|, d)
    ensures TakeAgrees(t, n, i, SubstituteFrom(t, n, d, open, close), d, open, close)
    decreases n - i, 0
  {
    var e := SpanEnd(t, i + |d|, d).value;
    SubstituteTake(t, n, e + |d|, d, open, close);
    TakeSpanStep(t, n, i, e, SubstituteFrom(t, n, d, open, close), d, open, close);
  }

  lemma {:induction false} TakeAtChar(t: string, n: nat, i: nat, d: string, open: string, close: string)
    requires OnOneLine(d) && i < n <= |t| && Cut(t, n, d)
    requires !(DelimAt(t, i, d) && SpanEnd(t, i + |d|, d).Some?)
    requires !(DelimAt(t[..n], i, d) && SpanEnd(t[..n], i + |d|, d).Some?)
    ensures TakeAgrees(t, n, i, SubstituteFrom(t, n, d, open, close), d, open, close)
    decreases n - i, 0
  {
    SubstituteTake(t, n, i + 1, d, open, close);
    TakeCharStep(t, n, i, SubstituteFrom(t, n, d, open, close), d, open, close);
  }

  /** A text cut where no span can cross is substituted piece by piece. */
  lemma SubstituteSplit(a: string, rest: string, d: string, open: string, close: string)
    requires OnOneLine(d) && Cut(a + rest, |a|, d)
    ensures Substitute(a + rest, d, open, close) == Substitute(a, d, open, close) + Substitute(rest, d, open, close)
  {
    var t := a + rest;
    assert t[..|a|] == a;
    SubstituteTake(t, |a|, 0, d, open, close);
    SubstituteDrop(t, |a|, rest, |a|, 0, d, open, close);
    assert SubstituteFrom(t, |a|, d, open, close) == SubstituteFrom(rest, 0, d, open, close);
  }

  /** No span of any of the three substitutions crosses a line terminator: text
      cut just before one is substituted piece by piece. */
  lemma SubstituteLineLocal(a: string, rest: string, d: string, open: string, close: string)
    requires OnOneLine(d) && |rest| > 0 && IsLineTerminator(rest[0])
    ensures Substitute(a + rest, d, open, close) == Substitute(a, d, open, close) + Substitute(rest, d, open, close)
  {
    assert (a + rest)[|a|] == rest[0];
    SubstituteSplit(a, rest, d, open, close);
  }

  /** The scan of `t` from `i` copies `t[i..n]` and then goes on as the scan from `n`. */
  predicate CopiesTo(t: string, i: nat, n: nat, d: string, open: string, close: string)
    requires Short(d) && i <= n <= |t|
  {
    SubstituteFrom(t, i, d, open, close) == t[i..n] + SubstituteFrom(t, n, d, open, close)
  }

  /** Copying one character that cannot open a span extends a copied run to the left. */
  lemma CopyStep(t: string, n: nat, i: nat, d: string, open: string, close: string)
    requires Short(d) && i < n <= |t| && t[i] != d[0]
    requires CopiesTo(t, i + 1, n, d, open, close)
    ensures CopiesTo(t, i, n, d, open, close)
  {
    StepChar(t, i, d, open, close);
    assert t[i..n] == [t[i]] + t[i + 1..n];
    Assoc([t[i]], t[i + 1..n], SubstituteFrom(t, n, d, open, close));
  }

  /** Up to position `n`, where the delimiter's first character does not occur, the scanner copies. */
  lemma {:induction false} CopyPrefix(t: string, n: nat, i: nat, d: string, open: string, close: string)
    requires Short(d) && i <= n <= |t|
    requires forall k :: i <= k < n ==> t[k] != d[0]
    ensures CopiesTo(t, i, n, d, open, close)
    decreases n - i
  {
    if i < n {
      CopyPrefix(t, n, i + 1, d, open, close);
      CopyStep(t, n, i, d, open, close);
    } else {
      assert t[i..n] == [];
    }
  }

  /** A prefix without the delimiter's first character is copied unchanged. */
  lemma SubstituteFreePrefix(a: string, b: string, d: string, open: string, close: string)
    requires Short(d) && d[0] !in a
    ensures Substitute(a + b, d, open, close) == a + Substitute(b, d, open, close)
  {
    var t := a + b;
    forall k | 0 <= k < |a|
      ensures t[k] != d[0]
    {
      assert t[k] == a[k];
    }
    CopyPrefix(t, |a|, 0, d, open, close);
    assert t[0..|a|] == a;
    SubstituteDrop(t, |a|, b, |a|, 0, d, open, close);
    assert SubstituteFrom(t, |a|, d, open, close) == SubstituteFrom(b, 0, d, open, close);
  }

  /** A suffix without any of the delimiter's characters is copied unchanged. */
  lemma SubstituteFreeSuffix(b: string, c: string, d: string, open: string, close: string)
    requires OnOneLine(d) && Avoids(c, d)
    ensures Substitute(b + c, d, open, close) == Substitute(b, d, open, close) + c
  {
    var t := b + c;
    forall k | |b| <= k < |t|
      ensures t[k] != d[0] && t[k] != d[|d| - 1]
    {
      assert t[k] == c[k - |b|];
    }
    SubstituteSplit(b, c, d, open, close);
    assert d[0] !in c;
    SubstituteIdentity(c, d, open, close);
  }

  /** A line terminator is copied, never opened as a span. */
  lemma BreakCopied(c: char, b: string, d: string, open: string, close: string)
    requires OnOneLine(d) && IsLineTerminator(c)
    ensures Substitute([c] + b, d, open, close) == [c] + Substitute(b, d, open, close)
  {
    assert d[0] !in [c];
    SubstituteFreePrefix([c], b, d, open, close);
  }

  /** One substitution on two lines. */
  lemma StageLineLocal(a: string, b: string, d: string, open: string, close: string)
    requires OnOneLine(d)
    ensures Substitute(a + (['\n'] + b), d, open, close)
         == Substitute(a, d, open, close) + (['\n'] + Substitute(b, d, open, close))
  {
    SubstituteLineLocal(a, ['\n'] + b, d, open, close);
    BreakCopied('\n', b, d, open, close);
  }

  /** Rendering is line by line: the lines are rendered separately and joined by `<br>`. */
  lemma RenderLineByLine(a: string, b: string)
    ensures ParseMarkdown(a + "\n" + b) == ParseMarkdown(a) + "<br>" + ParseMarkdown(b)
  {
    assert a + "\n" + b == a + (['\n'] + b);
    StageLineLocal(a, b, "**", "<strong>", "</strong>");
    StageLineLocal(Strong(a), Strong(b), "*", "<em>", "</em>");
    StageLineLocal(Em(Strong(a)), Em(Strong(b)), "`", "<code>", "</code>");
    var x, y := CodeSpans(Em(Strong(a))), CodeSpans(Em(Strong(b)));
    BreaksAppend(x, ['\n'] + y);
    BreaksAppend(['\n'], y);
    assert Breaks(['\n']) == "<br>";
  }

  /** A text that is one span from its first to its last character is replaced whole. */
  lemma WholeSpan(t: string, d: string, open: string, close: string)
    requires Short(d) && |t| >= 2 * |d| && DelimAt(t, 0, d) && DelimAt(t, |t| - |d|, d)
    requires forall k :: |d| <= k < |t| - |d| ==> !DelimAt(t, k, d) && !IsLineTerminator(t[k])
    ensures Substitute(t, d, open, close) == open + t[|d|..|t| - |d|] + close
  {
    SpanEndAt(t, |d|, |t| - |d|, d);
    assert SubstituteFrom(t, |t|, d, open, close) == "";
  }

  /** `**x**`, with `x` free of `*` and of line terminators, is one strong span. */
  lemma StrongSpan(x: string)
    requires '*' !in x
    requires forall k :: 0 <= k < |x| ==> !IsLineTerminator(x[k])
    ensures Strong("**" + x + "**") == "<strong>" + x + "</strong>"
  {
    var t := "**" + x + "**";
    var e := 2 + |x|;
    assert DelimAt(t, 0, "**") by { assert t[0] == '*' && t[1] == '*'; }
    assert DelimAt(t, e, "**") by { assert t[e] == '*' && t[e + 1] == '*'; }
    forall k | 2 <= k < e
      ensures !DelimAt(t, k, "**") && !IsLineTerminator(t[k])
    {
      assert t[k] == x[k - 2];
    }
    WholeSpan(t, "**", "<strong>", "</strong>");
    assert t[2..e] == x;
  }

  /** The code rule works inside a strong element without touching its tags. */
  lemma CodeInsideStrong(x: string)
    ensures CodeSpans("<strong>" + x + "</strong>") == "<strong>" + CodeSpans(x) + "</strong>"
  {
    SubstituteFreePrefix("<strong>", x + "</strong>", "`", "<code>", "</code>");
    SubstituteFreeSuffix(x, "</strong>", "`", "<code>", "</code>");
    assert "<strong>" + x + "</strong>" == "<strong>" + (x + "</strong>");
  }

  /** The first two rules on `**x**` and on `x`, for `x` free of `*` and of line terminators. */
  lemma StrongThenEm(x: string)
    requires '*' !in x
    requires forall k :: 0 <= k < |x| ==> !IsLineTerminator(x[k])
    ensures Em(Strong("**" + x + "**")) == "<strong>" + x + "</strong>"
    ensures Em(Strong(x)) == x
  {
    StrongSpan(x);
    var s := "<strong>" + x + "</strong>";
    assert '*' !in s;
    SubstituteIdentity(s, "*", "<em>", "</em>");
    SubstituteIdentity(x, "**", "<strong>", "</strong>");
    SubstituteIdentity(x, "*", "<em>", "</em>");
  }

  lemma StrongTagsUnbroken()
    ensures Breaks("<strong>") == "<strong>" && Breaks("</strong>") == "</strong>"
  {
    BreaksIdentity("<strong>");
    BreaksIdentity("</strong>");
  }

  /** Bold comes first: `**x**`, with `x` free of `*` and of line terminators, becomes a
      strong element around the rendering of `x`, and the italic rule never sees it. */
  lemma StrongBeforeEm(x: string)
    requires '*' !in x
    requires forall k :: 0 <= k < |x| ==> !IsLineTerminator(x[k])
    ensures ParseMarkdown("**" + x + "**") == "<strong>" + ParseMarkdown(x) + "</strong>"
  {
    StrongThenEm(x);
    CodeInsideStrong(x);
    var cx := CodeSpans(x);
    BreaksAppend("<strong>" + cx, "</strong>");
    BreaksAppend("<strong>", cx);
    StrongTagsUnbroken();
    calc {
      ParseMarkdown("**" + x + "**");
      Breaks(CodeSpans("<strong>" + x + "</strong>"));
      Breaks("<strong>" + cx + "</strong>");
      Breaks("<strong>") + Breaks(cx) + Breaks("</strong>");
      "<strong>" + Breaks(cx) + "</strong>";
      "<strong>" + ParseMarkdown(x) + "</strong>";
    }
  }

  /** A plain run of text: no `*`, no backtick and no line terminator. */
  predicate Plain(x: string) {
    forall k :: 0 <= k < |x| ==> x[k] != '*' && x[k] != '`' && !IsLineTerminator(x[k])
  }

  /** `*x*` between two star-free runs is one emphasis span. */
  lemma EmSpan(a: string, x: string, c: string)
    requires '*' !in a && '*' !in c && Plain(x)
    ensures Em(a + "*" + x + "*" + c) == a + "<em>" + x + "</em>" + c
  {
    var u := "*" + x + "*";
    assert a + "*" + x + "*" + c == a + (u + c);
    SubstituteFreePrefix(a, u + c, "*", "<em>", "</em>");
    var e := 1 + |x|;
    assert DelimAt(u, 0, "*") by { assert u[0] == '*'; }
    assert DelimAt(u, e, "*") by { assert u[e] == '*'; }
    forall k | 1 <= k < e
      ensures !DelimAt(u, k, "*") && !IsLineTerminator(u[k])
    {
      assert u[k] == x[k - 1];
    }
    WholeSpan(u, "*", "<em>", "</em>");
    assert u[1..e] == x;
    assert Avoids(c, "*") by {
      forall k | 0 <= k < |c| ensures c[k] != '*' { assert c[k] in c; }
    }
    SubstituteFreeSuffix(u, c, "*", "<em>", "</em>");
  }

  /** Inside `a*b*c` with plain, non-empty `b` and `c`, no two stars are adjacent and
      the last character is not a star. */
  lemma NoDoubleStar(a: string, b: string, c: string)
    requires Plain(a) && Plain(b) && Plain(c) && |b| > 0 && |c| > 0
    ensures var x := a + "*" + b + "*" + c;
      && (forall i :: 0 <= i < |x| ==> !IsLineTerminator(x[i]))
      && (forall i :: 0 <= i < |x| - 1 ==> x[i] != '*' || x[i + 1] != '*')
      && x[|x| - 1] != '*'
  {
    var x := a + "*" + b + "*" + c;
    var p1 := |a|;
    var p2 := |a| + 1 + |b|;
    forall i | 0 <= i < |x|
      ensures !IsLineTerminator(x[i]) && (i < |x| - 1 ==> x[i] != '*' || x[i + 1] != '*')
    {
      if i < p1 {
        assert x[i] == a[i];
      } else if i == p1 {
        assert x[i + 1] == b[0];
      } else if i < p2 {
        assert x[i] == b[i - p1 - 1];
      } else if i == p2 {
        assert x[i + 1] == c[0];
      } else {
        assert x[i] == c[i - p2 - 1];
      }
    }
    assert x[|x| - 1] == c[|c| - 1];
  }

  /** The bold rule takes `**a*b*c**` whole: its lazy body stops at the final `**`. */
  lemma NestedStrongSpan(a: string, b: string, c: string)
    requires Plain(a) && Plain(b) && Plain(c) && |b| > 0 && |c| > 0
    ensures Strong("**" + a + "*" + b + "*" + c + "**") == "<strong>" + a + "*" + b + "*" + c + "</strong>"
  {
    var x := a + "*" + b + "*" + c;
    NoDoubleStar(a, b, c);
    var t := "**" + x + "**";
    assert "**" + a + "*" + b + "*" + c + "**" == t;
    var e := 2 + |x|;
    assert DelimAt(t, 0, "**") by { assert t[0] == '*' && t[1] == '*'; }
    assert DelimAt(t, e, "**") by { assert t[e] == '*' && t[e + 1] == '*'; }
    forall k | 2 <= k < e
      ensures !DelimAt(t, k, "**") && !IsLineTerminator(t[k])
    {
      assert t[k] == x[k - 2];
      if k + 1 < e {
        assert t[k + 1] == x[k - 1];
      }
    }
    WholeSpan(t, "**", "<strong>", "</strong>");
    assert t[2..e] == x;
  }

  /** Nested emphasis: in `**a*b*c**` the bold rule runs first and leaves the single
      stars, which the italic rule then turns into an emphasis element inside it. */
  lemma NestedEmphasis(a: string, b: string, c: string)
    requires Plain(a) && Plain(b) && Plain(c) && |b| > 0 && |c| > 0
    ensures ParseMarkdown("**" + a + "*" + b + "*" + c + "**")
         == "<strong>" + a + "<em>" + b + "</em>" + c + "</strong>"
  {
    NestedStrongSpan(a, b, c);
    EmSpan("<strong>" + a, b, c + "</strong>");
    assert "<strong>" + a + "*" + b + "*" + c + "</strong>" == ("<strong>" + a) + "*" + b + "*" + (c + "</strong>");
    var r := "<strong>" + a + "<em>" + b + "</em>" + c + "</strong>";
    assert ("<strong>" + a) + "<em>" + b + "</em>" + (c + "</strong>") == r;
    assert '`' !in r && '\n' !in r;
    SubstituteIdentity(r, "`", "<code>", "</code>");
    BreaksIdentity(r);
  }

  /** `**x**` followed by plain text `y`: one strong element, and `y` is copied. */
  lemma StrongThenPlain(x: string, y: string)
    requires Plain(x) && Plain(y)
    ensures ParseMarkdown("**" + x + "**" + y) == "<strong>" + x + "</strong>" + y
  {
    assert '*' !in x by {
      forall k | 0 <= k < |x| ensures x[k] != '*' { }
    }
    StrongSpan(x);
    SubstituteFreeSuffix("**" + x + "**", y, "**", "<strong>", "</strong>");
    var r := "<strong>" + x + "</strong>" + y;
    assert Strong("**" + x + "**" + y) == r;
    assert Plain("<strong>") && Plain("</strong>");
    assert '*' !in r && '`' !in r && '\n' !in r by {
      forall k | 0 <= k < |r|
        ensures r[k] != '*' && r[k] != '`' && r[k] != '\n'
      {
        if k < 8 {
        } else if k < 8 + |x| {
          assert r[k] == x[k - 8];
        } else if k < 17 + |x| {
        } else {
          assert r[k] == y[k - 17 - |x|];
        }
      }
    }
    SubstituteIdentity(r, "*", "<em>", "</em>");
    SubstituteIdentity(r, "`", "<code>", "</code>");
    BreaksIdentity(r);
  }
}
