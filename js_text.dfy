/**
  The few pieces of JavaScript's string library that the post-processor leans on:
  the character classes `\s`, `\w` and `.` of its regular expressions,
  `String.prototype.trim`, `split` and `join` on a one-character separator, and
  `includes("::")`. Strings are sequences of characters; the separators and
  white-space characters involved all lie in the Basic Multilingual Plane, so
  UTF-16 code units and characters agree on them.
*/
module JsText {

  /** ECMAScript LineTerminator: where `^` and `$` anchor under the `m` flag, and what `.` refuses. */
  predicate IsLineTerminator(c: char) {
    c == '\n' || c == '\r' || c == '\U{2028}' || c == '\U{2029}'
  }

  /** ECMAScript WhiteSpace or LineTerminator: what `\s` matches and what `trim` strips. */
  predicate IsSpace(c: char) {
    || IsLineTerminator(c)
    || c == '\t' || c == '\U{000B}' || c == '\U{000C}' || c == ' '
    || c == '\U{00A0}' || c == '\U{FEFF}' || c == '\U{1680}'
    || ('\U{2000}' <= c <= '\U{200A}')
    || c == '\U{202F}' || c == '\U{205F}' || c == '\U{3000}'
  }

  /** The class `\w`: ASCII letters, digits and the underscore. */
  predicate IsWordChar(c: char) {
    ('a' <= c <= 'z') || ('A' <= c <= 'Z') || ('0' <= c <= '9') || c == '_'
  }

  predicate AllSpace(s: string) {
    forall k :: 0 <= k < |s| ==> IsSpace(s[k])
  }

  /** Drops the leading white space (see `TrimStartShape`). */
  function TrimStart(s: string): string {
    if |s| > 0 && IsSpace(s[0]) then TrimStart(s[1..]) else s
  }

  /** Drops the trailing white space (see `TrimEndShape`). */
  function TrimEnd(s: string): string {
    if |s| > 0 && IsSpace(s[|s| - 1]) then TrimEnd(s[..|s| - 1]) else s
  }

  /** `String.prototype.trim` (see `TrimShape`). */
  function Trim(s: string): string {
    TrimEnd(TrimStart(s))
  }

  /** A string that neither starts nor ends with white space is its own trim. */
  lemma TrimKeeps(s: string)
    requires |s| > 0 && !IsSpace(s[0]) && !IsSpace(s[|s| - 1])
    ensures Trim(s) == s
  {
  }

  /** What `TrimStart` keeps is a suffix that starts with a non-space, and what it drops is white. */
  lemma {:induction false} TrimStartShape(s: string)
    ensures var r := TrimStart(s);
      && |r| <= |s| && r == s[|s| - |r|..]
      && AllSpace(s[..|s| - |r|])
      && (r == [] || !IsSpace(r[0]))
  {
    if |s| > 0 && IsSpace(s[0]) {
      TrimStartShape(s[1..]);
      var r := TrimStart(s);
      assert s[..|s| - |r|] == [s[0]] + s[1..][..|s| - 1 - |r|];
    }
  }

  /** What `TrimEnd` keeps is a prefix that ends with a non-space, and what it drops is white. */
  lemma {:induction false} TrimEndShape(s: string)
    ensures var r := TrimEnd(s);
      && |r| <= |s| && r == s[..|r|]
      && AllSpace(s[|r|..])
      && (r == [] || !IsSpace(r[|r| - 1]))
  {
    if |s| > 0 && IsSpace(s[|s| - 1]) {
      TrimEndShape(s[..|s| - 1]);
      var r := TrimEnd(s);
      assert s[|r|..] == s[..|s| - 1][|r|..] + [s[|s| - 1]];
    }
  }

  /** `Trim` keeps the slice of `s` between its leading and its trailing white space:
      the slice neither starts nor ends with white space, and all that is cut off is white. */
  lemma TrimShape(s: string)
    ensures var r := Trim(s); var a := |s| - |TrimStart(s)|;
      && 0 <= a && a + |r| <= |s| && r == s[a..a + |r|]
      && (r == [] || (!IsSpace(r[0]) && !IsSpace(r[|r| - 1])))
      && AllSpace(s[..a]) && AllSpace(s[a + |r|..])
  {
    var u := TrimStart(s);
    TrimStartShape(s);
    TrimEndShape(u);
    var r := TrimEnd(u);
    assert r == [] || r[0] == u[0];
    assert s[|s| - |u| + |r|..] == u[|r|..];
  }

  /** Leading white space is stripped inside the first operand when that operand is not all white. */
  lemma {:induction false} TrimStartAppend(a: string, b: string)
    requires !AllSpace(a)
    ensures TrimStart(a + b) == TrimStart(a) + b
  {
    assert |a| > 0;
    if IsSpace(a[0]) {
      assert (a + b)[1..] == a[1..] + b;
      assert !AllSpace(a[1..]) by {
        var k :| 0 <= k < |a| && !IsSpace(a[k]);
        assert a[1..][k - 1] == a[k];
      }
      TrimStartAppend(a[1..], b);
    }
  }

  /** Trailing white space is stripped inside the second operand when that operand is not all white. */
  lemma {:induction false} TrimEndAppend(a: string, b: string)
    requires !AllSpace(b)
    ensures TrimEnd(a + b) == a + TrimEnd(b)
  {
    assert |b| > 0;
    if IsSpace(b[|b| - 1]) {
      assert (a + b)[..|a + b| - 1] == a + b[..|b| - 1];
      assert !AllSpace(b[..|b| - 1]) by {
        var k :| 0 <= k < |b| && !IsSpace(b[k]);
        assert k < |b| - 1;
        assert b[..|b| - 1][k] == b[k];
      }
      TrimEndAppend(a, b[..|b| - 1]);
    }
  }

  /** `s.includes("::")`. */
  predicate HasMarker(s: string) {
    exists i :: 0 <= i < |s| - 1 && s[i] == ':' && s[i + 1] == ':'
  }

  /** The number of occurrences of `c` in `s`. */
  function Count(s: string, c: char): nat {
    if |s| == 0 then 0 else (if s[0] == c then 1 else 0) + Count(s[1..], c)
  }

  /** `s.split(sep)` for a one-character separator: the maximal separator-free runs, one more than there are separators. */
  function Split(s: string, sep: char): (parts: seq<string>)
    ensures |parts| == Count(s, sep) + 1
    ensures forall k :: 0 <= k < |parts| ==> sep !in parts[k]
  {
    if |s| == 0 then [""]
    else
      var rest := Split(s[1..], sep);
      if s[0] == sep then [""] + rest else [[s[0]] + rest[0]] + rest[1..]
  }

  /** `parts.join(sep)`. */
  function Join(parts: seq<string>, sep: char): string {
    if |parts| == 0 then ""
    else if |parts| == 1 then parts[0]
    else parts[0] + [sep] + Join(parts[1..], sep)
  }

  /** Splitting and re-joining on the same separator gives back the string. */
  lemma {:induction false} JoinSplit(s: string, sep: char)
    ensures Join(Split(s, sep), sep) == s
  {
    if |s| > 0 {
      var rest := Split(s[1..], sep);
      JoinSplit(s[1..], sep);
      if s[0] == sep {
        assert Split(s, sep) == [""] + rest;
        assert ([""] + rest)[1..] == rest;
      } else if |rest| == 1 {
        assert Split(s, sep) == [[s[0]] + rest[0]];
      } else {
        assert Split(s, sep) == [[s[0]] + rest[0]] + rest[1..];
        assert Join(rest, sep) == rest[0] + [sep] + Join(rest[1..], sep);
        assert ([[s[0]] + rest[0]] + rest[1..])[1..] == rest[1..];
      }
    }
  }

  /** A separator-free prefix is glued onto the first part. */
  lemma {:induction false} SplitPrefix(p: string, t: string, sep: char)
    requires sep !in p
    ensures Split(p + t, sep) == [p + Split(t, sep)[0]] + Split(t, sep)[1..]
  {
    if |p| > 0 {
      assert (p + t)[0] == p[0];
      assert (p + t)[1..] == p[1..] + t;
      SplitPrefix(p[1..], t, sep);
      assert [p[0]] + (p[1..] + Split(t, sep)[0]) == p + Split(t, sep)[0];
    } else {
      assert p + t == t;
      assert p + Split(t, sep)[0] == Split(t, sep)[0];
      assert Split(t, sep) == [Split(t, sep)[0]] + Split(t, sep)[1..];
    }
  }

  /** A separator-free line followed by the separator splits off as the first part. */
  lemma SplitLine(p: string, t: string, sep: char)
    requires sep !in p
    ensures Split(p + [sep] + t, sep) == [p] + Split(t, sep)
  {
    assert p + [sep] + t == p + ([sep] + t);
    SplitPrefix(p, [sep] + t, sep);
    assert ([sep] + t)[1..] == t;
    assert Split([sep] + t, sep) == [""] + Split(t, sep);
    assert p + "" == p;
  }

  /** Joining separator-free parts and splitting again gives back the parts. */
  lemma {:induction false} SplitJoin(parts: seq<string>, sep: char)
    requires |parts| >= 1
    requires forall k :: 0 <= k < |parts| ==> sep !in parts[k]
    ensures Split(Join(parts, sep), sep) == parts
  {
    if |parts| == 1 {
      SplitPrefix(parts[0], "", sep);
      assert parts[0] + "" == parts[0];
    } else {
      var rest := Join(parts[1..], sep);
      SplitJoin(parts[1..], sep);
      assert parts[0] + [sep] + rest == parts[0] + ([sep] + rest);
      SplitPrefix(parts[0], [sep] + rest, sep);
      assert ([sep] + rest)[1..] == rest;
      assert Split([sep] + rest, sep) == [""] + parts[1..];
      assert parts[0] + "" == parts[0];
    }
  }

  /** `Join` cut after part `i`. */
  lemma {:induction false} JoinAt(parts: seq<string>, i: nat, sep: char)
    requires i + 1 < |parts|
    ensures Join(parts, sep) == Join(parts[..i + 1], sep) + [sep] + Join(parts[i + 1..], sep)
  {
    if i > 0 {
      JoinAt(parts[1..], i - 1, sep);
      assert parts[1..][..i] == parts[1..i + 1];
      assert parts[1..][i..] == parts[i + 1..];
      assert parts[..i + 1][1..] == parts[1..i + 1];
    }
  }

  /** The index of the first `c` in `s`, as `indexOf` finds it. */
  function IndexOf(s: string, c: char): (i: nat)
    requires c in s
    ensures i < |s| && s[i] == c && c !in s[..i]
  {
    if s[0] == c then 0 else IndexOf(s[1..], c) + 1
  }

  /** `s.replace(/c/g, '')` for one character `c`. */
  function RemoveAll(s: string, c: char): (r: string)
    ensures c !in r
    ensures |r| == |s| - Count(s, c)
    ensures forall d :: d != c ==> Count(r, d) == Count(s, d)
  {
    if |s| == 0 then ""
    else if s[0] == c then RemoveAll(s[1..], c)
    else
      var r := [s[0]] + RemoveAll(s[1..], c);
      assert r[1..] == RemoveAll(s[1..], c);
      r
  }

  /** Removing a character works piece by piece. */
  lemma {:induction false} RemoveAllAppend(a: string, b: string, c: char)
    ensures RemoveAll(a + b, c) == RemoveAll(a, c) + RemoveAll(b, c)
  {
    if |a| > 0 {
      assert (a + b)[0] == a[0];
      assert (a + b)[1..] == a[1..] + b;
      RemoveAllAppend(a[1..], b, c);
    } else {
      assert a + b == b;
    }
  }

  /** Removing a character that does not occur changes nothing. */
  lemma {:induction false} RemoveAllAbsent(s: string, c: char)
    requires c !in s
    ensures RemoveAll(s, c) == s
  {
    if |s| > 0 {
      assert c !in s[1..];
      RemoveAllAbsent(s[1..], c);
    }
  }

  /** Occurrences add up over a concatenation. */
  lemma {:induction false} CountAppend(a: string, b: string, c: char)
    ensures Count(a + b, c) == Count(a, c) + Count(b, c)
  {
    if |a| > 0 {
      assert (a + b)[0] == a[0];
      assert (a + b)[1..] == a[1..] + b;
      CountAppend(a[1..], b, c);
    } else {
      assert a + b == b;
    }
  }

  /** White space only is trimmed away entirely from the front. */
  lemma TrimStartAllSpace(s: string)
    requires AllSpace(s)
    ensures TrimStart(s) == ""
  {
    TrimStartShape(s);
  }

  /** A trailing line break makes no difference to the trim. */
  lemma TrimNewline(s: string)
    ensures Trim(s + "\n") == Trim(s)
  {
    if AllSpace(s) {
      assert AllSpace(s + "\n") by {
        forall k | 0 <= k < |s| + 1
          ensures IsSpace((s + "\n")[k])
        {
          if k < |s| {
            assert (s + "\n")[k] == s[k];
          }
        }
      }
      TrimStartAllSpace(s);
      TrimStartAllSpace(s + "\n");
    } else {
      TrimStartAppend(s, "\n");
      var u := TrimStart(s);
      assert (u + "\n")[..|u|] == u;
    }
  }
}
