/**
  The block pattern `^::(\w+)\s*\n([\s\S]*?)\n::$` with the `m` flag
  (main.ts:18), written out as an explicit matcher. `String.prototype.match`
  without the `g` flag reports the first match of a backtracking search:
  the leftmost line start that works; then `\w+` and `\s*` greedy, so the
  longest run of white space that still leaves a line break and a closing line
  after it; then the lazy body, so the nearest closing line. The matcher below
  reproduces that order and `MatchBlock` is proved to return exactly the match
  the engine prefers, or `None` when the pattern matches nowhere.
*/
module BlockPattern {
  import opened Wrappers
  import opened JsText

  /** Positions of one match in the scanned text `t`: the opening `::` at `start`,
      the tag in `[start + 2, tagEnd)`, the line break that ends `\s*` at `newline`,
      the body in `[newline + 1, close)` and the closing `\n::` at `close`. */
  datatype BlockMatch = BlockMatch(start: nat, tagEnd: nat, newline: nat, close: nat)

  /** `^` under the `m` flag. */
  predicate LineStart(t: string, p: nat) {
    p == 0 || (p <= |t| && IsLineTerminator(t[p - 1]))
  }

  /** `$` under the `m` flag. */
  predicate LineEnd(t: string, p: nat) {
    p == |t| || (p < |t| && IsLineTerminator(t[p]))
  }

  /** `\n::$` at position `b`: a line that is exactly `::` follows a line break. */
  predicate ClosesAt(t: string, b: nat) {
    b + 3 <= |t| && t[b] == '\n' && t[b + 1] == ':' && t[b + 2] == ':' && LineEnd(t, b + 3)
  }

  /** The pattern read as a language: the positions `p`, `q`, `n`, `b` make it match `t`. */
  ghost predicate IsMatch(t: string, p: nat, q: nat, n: nat, b: nat) {
    && LineStart(t, p)
    && p + 2 < q <= n < b && b + 3 <= |t|
    && t[p] == ':' && t[p + 1] == ':'
    && (forall k :: p + 2 <= k < q ==> IsWordChar(t[k]))
    && (forall k :: q <= k < n ==> IsSpace(t[k]))
    && t[n] == '\n'
    && ClosesAt(t, b)
  }

  ghost predicate Matches(t: string, m: BlockMatch) {
    IsMatch(t, m.start, m.tagEnd, m.newline, m.close)
  }

  /** The engine reports `m` rather than the match at `p`, `q`, `n`, `b`: it starts
      earlier, or it starts there with the same tag, a longer `\s*` run, or the same
      run and a body that is no longer. */
  ghost predicate Before(m: BlockMatch, p: nat, q: nat, n: nat, b: nat) {
    m.start < p || (m.start == p && m.tagEnd == q && (m.newline > n || (m.newline == n && m.close <= b)))
  }

  /** The tag, the first capture group. */
  function Tag(t: string, m: BlockMatch): (tag: string)
    requires Matches(t, m)
    ensures |tag| > 0 && forall k :: 0 <= k < |tag| ==> IsWordChar(tag[k])
  {
    t[m.start + 2..m.tagEnd]
  }

  /** The block source, the second capture group. */
  function Content(t: string, m: BlockMatch): string
    requires Matches(t, m)
  {
    t[m.newline + 1..m.close]
  }

  /** End of the run of `\w` characters that starts at `i`. */
  function WordEnd(t: string, i: nat): (r: nat)
    requires i <= |t|
    ensures i <= r <= |t|
    ensures forall k :: i <= k < r ==> IsWordChar(t[k])
    ensures r == |t| || !IsWordChar(t[r])
    decreases |t| - i
  {
    if i < |t| && IsWordChar(t[i]) then WordEnd(t, i + 1) else i
  }

  /** End of the run of `\s` characters that starts at `i`. */
  function SpaceEnd(t: string, i: nat): (r: nat)
    requires i <= |t|
    ensures i <= r <= |t|
    ensures forall k :: i <= k < r ==> IsSpace(t[k])
    ensures r == |t| || !IsSpace(t[r])
    decreases |t| - i
  {
    if i < |t| && IsSpace(t[i]) then SpaceEnd(t, i + 1) else i
  }

  /** The lazy body: the nearest closing line at or after `x`. */
  function FindClose(t: string, x: nat): (r: Option<nat>)
    requires x <= |t|
    ensures r.Some? ==> x <= r.value && ClosesAt(t, r.value)
    ensures r.Some? ==> forall b: nat :: x <= b < r.value ==> !ClosesAt(t, b)
    ensures r.None? ==> forall b: nat :: x <= b ==> !ClosesAt(t, b)
    decreases |t| - x
  {
    if x + 3 > |t| then None
    else if ClosesAt(t, x) then Some(x)
    else FindClose(t, x + 1)
  }

  /** Backtracking through `\s*`: the line break at the largest position in `[q, n]`
      that has a closing line after it, together with the nearest such closing line. */
  function TryNewline(t: string, q: nat, n: nat): (r: Option<(nat, nat)>)
    requires q <= n <= |t|
    ensures r.Some? ==> q <= r.value.0 <= n && r.value.0 < r.value.1
    ensures r.Some? ==> r.value.0 < |t| && t[r.value.0] == '\n' && ClosesAt(t, r.value.1)
    ensures r.Some? ==> forall b: nat :: r.value.0 < b < r.value.1 ==> !ClosesAt(t, b)
    ensures r.Some? ==> forall n': nat, b: nat ::
      r.value.0 < n' <= n && n' < b && n' < |t| && t[n'] == '\n' ==> !ClosesAt(t, b)
    ensures r.None? ==> forall n': nat, b: nat ::
      q <= n' <= n && n' < b && n' < |t| && t[n'] == '\n' ==> !ClosesAt(t, b)
    decreases n
  {
    if n < |t| && t[n] == '\n' && FindClose(t, n + 1).Some? then Some((n, FindClose(t, n + 1).value))
    else if n == q then None
    else TryNewline(t, q, n - 1)
  }

  /** In any match the tag is the whole run of word characters after `::`, and the
      line break lies inside the run of white space that follows it. */
  lemma MatchShape(t: string, p: nat)
    ensures forall q: nat, n: nat, b: nat :: IsMatch(t, p, q, n, b) ==>
      q == WordEnd(t, p + 2) && n < SpaceEnd(t, q)
  {
    forall q: nat, n: nat, b: nat | IsMatch(t, p, q, n, b)
      ensures q == WordEnd(t, p + 2) && n < SpaceEnd(t, q)
    {
      assert IsSpace(t[q]);
    }
  }

  /** The match the engine reports when it tries the pattern at position `p`. */
  function MatchAt(t: string, p: nat): (r: Option<BlockMatch>)
    requires p <= |t|
    ensures r.Some? ==> r.value.start == p && Matches(t, r.value)
    ensures r.Some? ==> forall q: nat, n: nat, b: nat :: IsMatch(t, p, q, n, b) ==> Before(r.value, p, q, n, b)
    ensures r.None? ==> forall q: nat, n: nat, b: nat :: !IsMatch(t, p, q, n, b)
  {
    if LineStart(t, p) && p + 2 <= |t| && t[p] == ':' && t[p + 1] == ':' then
      var q := WordEnd(t, p + 2);
      if q == p + 2 then
        None
      else
        var s := SpaceEnd(t, q);
        match TryNewline(t, q, s)
        case None => None
        case Some((n, b)) =>
          MatchShape(t, p);
          Some(BlockMatch(p, q, n, b))
    else
      None
  }

  /** The leftmost match that starts at or after `p`. */
  function MatchFrom(t: string, p: nat): (r: Option<BlockMatch>)
    requires p <= |t|
    ensures r.Some? ==> p <= r.value.start && Matches(t, r.value)
    ensures r.Some? ==> forall p': nat, q: nat, n: nat, b: nat :: p <= p' && IsMatch(t, p', q, n, b) ==> Before(r.value, p', q, n, b)
    ensures r.None? ==> forall p': nat, q: nat, n: nat, b: nat :: p <= p' ==> !IsMatch(t, p', q, n, b)
    decreases |t| - p
  {
    match MatchAt(t, p)
    case Some(m) => Some(m)
    case None => if p == |t| then None else MatchFrom(t, p + 1)
  }

  /** `t.match(/^::(\w+)\s*\n([\s\S]*?)\n::$/m)`: the match the engine reports, if any. */
  function MatchBlock(t: string): (r: Option<BlockMatch>)
    ensures r.Some? ==> Matches(t, r.value)
    ensures r.Some? ==> forall p: nat, q: nat, n: nat, b: nat :: IsMatch(t, p, q, n, b) ==> Before(r.value, p, q, n, b)
    ensures r.None? ==> forall p: nat, q: nat, n: nat, b: nat :: !IsMatch(t, p, q, n, b)
  {
    MatchFrom(t, 0)
  }

  /** A reported match starts on a line that opens with `::` and a word character,
      and ends with a line that is exactly `::`: without both there is no match, so a
      bare `::` line, one followed by a space, or an unclosed block opens nothing. */
  lemma MatchNeedsBothLines(t: string)
    requires MatchBlock(t).Some?
    ensures var m := MatchBlock(t).value;
      && LineStart(t, m.start) && m.start + 2 < |t|
      && t[m.start] == ':' && t[m.start + 1] == ':' && IsWordChar(t[m.start + 2])
      && m.start < m.close && ClosesAt(t, m.close)
  {
    var m := MatchBlock(t).value;
    assert Matches(t, m);
  }

  /** No line of `src` after its first one starts with `::`. */
  predicate NoMarkerLine(src: string) {
    forall j :: 0 <= j && j + 2 < |src| ==> !(src[j] == '\n' && src[j + 1] == ':' && src[j + 2] == ':')
  }

  /** `s` holds no line feed. */
  predicate NoFeed(s: string) {
    forall k :: 0 <= k < |s| ==> s[k] != '\n'
  }

  /** Without a line feed there is no line starting with `::`. */
  lemma FeedFreeMarkers(s: string)
    requires NoFeed(s)
    ensures NoMarkerLine(s)
  {
  }

  /** One leading line feed followed by a feed-free line that does not open with `:`
      starts no `::` line. */
  lemma LeadingFeed(s: string)
    requires NoFeed(s) && (|s| == 0 || s[0] != ':')
    ensures NoMarkerLine("\n" + s)
  {
    var t := "\n" + s;
    forall j | 0 <= j && j + 2 < |t|
      ensures !(t[j] == '\n' && t[j + 1] == ':' && t[j + 2] == ':')
    {
      if j > 0 {
        assert t[j] == s[j - 1];
      } else {
        assert t[1] == s[0];
      }
    }
  }

  /** Two texts free of `::` lines, the first ending in neither a line feed nor `:`,
      join into one free of them. */
  lemma MarkerFreeJoin(a: string, b: string)
    requires NoMarkerLine(a) && NoMarkerLine(b)
    requires |a| > 0 && a[|a| - 1] != '\n' && a[|a| - 1] != ':'
    ensures NoMarkerLine(a + b)
  {
    var t := a + b;
    forall j | 0 <= j && j + 2 < |t|
      ensures !(t[j] == '\n' && t[j + 1] == ':' && t[j + 2] == ':')
    {
      if j + 2 < |a| {
        assert t[j] == a[j] && t[j + 1] == a[j + 1] && t[j + 2] == a[j + 2];
      } else if j >= |a| {
        assert t[j] == b[j - |a|] && t[j + 1] == b[j + 1 - |a|] && t[j + 2] == b[j + 2 - |a|];
      } else if j == |a| - 1 {
        assert t[j] == a[|a| - 1];
      } else {
        assert t[j + 1] == a[|a| - 1];
      }
    }
  }

  /** A text that is one block from its first to its last character, with a body
      that opens with a non-space and holds no line starting with `::`, is matched
      whole: the tag up to the first line break, the body up to the last one. */
  lemma WholeMatch(t: string, q: nat, b: nat)
    requires |t| == b + 3 && 2 < q && q + 1 < b
    requires t[0] == ':' && t[1] == ':' && forall k :: 2 <= k < q ==> IsWordChar(t[k])
    requires t[q] == '\n' && !IsSpace(t[q + 1])
    requires t[b] == '\n' && t[b + 1] == ':' && t[b + 2] == ':'
    requires forall c :: q < c && c + 2 < b ==> !(t[c] == '\n' && t[c + 1] == ':' && t[c + 2] == ':')
    ensures MatchBlock(t) == Some(BlockMatch(0, q, q, b))
  {
    assert IsMatch(t, 0, q, q, b);
    var m := MatchBlock(t).value;
    assert Before(m, 0, q, q, b);
    assert m.start == 0 && m.tagEnd == q;
    assert m.newline == q;
    assert t[b - 1] != '\n' || t[b] != ':';
    assert t[b - 2] != '\n' || t[b - 1] != ':' || t[b] != ':';
    assert m.close == b;
  }

  /** A block written out as the line `::w`, a source `src` that starts with a
      non-space and has no line opening with `::`, and the line `::` is matched from
      its first character, and the second capture is exactly `src`. */
  lemma CapturesSource(w: string, src: string)
    requires |w| > 0 && forall k :: 0 <= k < |w| ==> IsWordChar(w[k])
    requires |src| > 0 && !IsSpace(src[0]) && NoMarkerLine(src)
    ensures var t := "::" + w + "\n" + src + "\n::";
      && MatchBlock(t).Some? && MatchBlock(t).value.start == 0
      && Content(t, MatchBlock(t).value) == src
  {
    var t := "::" + w + "\n" + src + "\n::";
    var q := 2 + |w|;
    var b := q + 1 + |src|;
    assert |t| == b + 3;
    assert t[0] == ':' && t[1] == ':';
    assert forall k :: 2 <= k < q ==> t[k] == w[k - 2];
    assert t[q] == '\n' && t[q + 1] == src[0];
    assert t[b] == '\n' && t[b + 1] == ':' && t[b + 2] == ':';
    assert t[q + 1..b] == src;
    forall c | q < c && c + 2 < b
      ensures !(t[c] == '\n' && t[c + 1] == ':' && t[c + 2] == ':')
    {
      assert t[c] == src[c - q - 1] && t[c + 1] == src[c - q] && t[c + 2] == src[c - q + 1];
    }
    WholeMatch(t, q, b);
  }
}
