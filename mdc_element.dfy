/**
  `createMdcElement` (main.ts:57-104): the block source is cut into lines, an
  optional front-matter header between two `---` lines fills a string map, the
  rest of the source becomes the body, and the embed container is built from the
  `title` entry and the rendered body.
*/
module MdcElement {
  import opened Wrappers
  import opened JsText
  import opened Markdown

  /** The `mdc-embed` container: the text of its `mdc-embed-title` child, if there
      is one, and the HTML string handed to its `mdc-embed-content` child, if there
      is one. The title child always comes first. */
  datatype Container = Container(title: Option<string>, content: Option<string>)

  /** What one header line contributes to `props`: a key and a value, or nothing. */
  type Entry = Option<(string, string)>

  /** The entry of a trimmed header line: the line is cut at its first colon and both
      halves are trimmed (see `HeaderEntryAtFirstColon`). Empty lines and lines
      without a colon contribute nothing. */
  function HeaderEntry(line: string): (r: Entry)
    ensures r.Some? <==> line != "" && ':' in line
  {
    if line != "" && ':' in line then
      var parts := Split(line, ':');
      Some((Trim(parts[0]), Trim(Join(parts[1..], ':'))))
    else
      None
  }

  /** The entries of the header lines `ls`, one per line. */
  function Entries(ls: seq<string>): (es: seq<Entry>)
    ensures |es| == |ls|
    ensures forall j :: 0 <= j < |ls| ==> es[j] == HeaderEntry(Trim(ls[j]))
  {
    seq(|ls|, j requires 0 <= j < |ls| => HeaderEntry(Trim(ls[j])))
  }

  /** `props[key] = value` on a plain JavaScript object: assigning a string to
      `__proto__` goes to the prototype setter, which ignores it. */
  function Put(props: map<string, string>, entry: Entry): (r: map<string, string>)
    ensures entry.None? || entry.value.0 == "__proto__" ==> r == props
    ensures entry.Some? && entry.value.0 != "__proto__" ==>
      r.Keys == props.Keys + {entry.value.0} && r[entry.value.0] == entry.value.1
    ensures forall k :: k in props && (entry.None? || k != entry.value.0) ==> k in r && r[k] == props[k]
  {
    match entry
    case None => props
    case Some((key, value)) => if key == "__proto__" then props else props[key := value]
  }

  /** The map filled from the entries `es`, applied in order. */
  function Fold(es: seq<Entry>): map<string, string> {
    if |es| == 0 then map[]
    else Put(Fold(es[..|es| - 1]), es[|es| - 1])
  }

  /** The map filled from the header lines `ls`. */
  function HeaderProps(ls: seq<string>): map<string, string> {
    Fold(Entries(ls))
  }

  predicate IsRule(line: string) {
    Trim(line) == "---"
  }

  /** The first `---` line at or after line `i`. */
  function HeaderClose(lines: seq<string>, i: nat): (r: Option<nat>)
    requires i <= |lines|
    ensures r.Some? ==> i <= r.value < |lines| && IsRule(lines[r.value])
    ensures r.Some? ==> forall j :: i <= j < r.value ==> !IsRule(lines[j])
    ensures r.None? ==> forall j :: i <= j < |lines| ==> !IsRule(lines[j])
    decreases |lines| - i
  {
    if i == |lines| then None
    else if IsRule(lines[i]) then Some(i)
    else HeaderClose(lines, i + 1)
  }

  predicate OpensHeader(lines: seq<string>) {
    |lines| > 0 && IsRule(lines[0])
  }

  /** `frontmatterEnd`: the index of the first `---` line after an opening `---` on
      line 0, or -1 when line 0 is not `---` or no later line is. */
  function FrontmatterEnd(lines: seq<string>): (r: int)
    ensures -1 <= r < |lines|
    ensures r >= 0 ==> r >= 1 && OpensHeader(lines) && IsRule(lines[r]) && forall j :: 1 <= j < r ==> !IsRule(lines[j])
    ensures r == -1 ==> !OpensHeader(lines) || forall j :: 1 <= j < |lines| ==> !IsRule(lines[j])
  {
    if OpensHeader(lines) then
      match HeaderClose(lines, 1)
      case Some(i) => i
      case None => -1
    else
      -1
  }

  /** `props` once the header loop is over: read from the lines after the opening
      `---` up to the closing one, or up to the end when there is none. */
  function Props(lines: seq<string>): map<string, string> {
    if OpensHeader(lines) then HeaderProps(lines[1..HeaderClose(lines, 1).GetOr(|lines|)])
    else map[]
  }

  /** The trimmed body: the lines after `frontmatterEnd`, joined again. */
  function Body(source: string): string {
    var lines := Split(source, '\n');
    Trim(Join(lines[FrontmatterEnd(lines) + 1..], '\n'))
  }

  /** The title child's text: present when `props.title` is a non-empty string,
      with every double quote removed. */
  function Title(props: map<string, string>): (r: Option<string>)
    ensures r.Some? <==> "title" in props && props["title"] != ""
    ensures r.Some? ==> r.value == RemoveAll(props["title"], '"')
    ensures r.Some? ==> '"' !in r.value && |r.value| == |props["title"]| - Count(props["title"], '"')
    ensures r.Some? ==> forall d :: d != '"' ==> Count(r.value, d) == Count(props["title"], d)
  {
    if "title" in props && props["title"] != "" then Some(RemoveAll(props["title"], '"')) else None
  }

  /** The container `createMdcElement` builds for a block source. */
  function Embed(source: string): Container {
    var body := Body(source);
    Container(Title(Props(Split(source, '\n'))), if body != "" then Some(ParseMarkdown(body)) else None)
  }

  /** One header line read into `props`: a non-empty line with a colon is split on
      the colon, and the first piece, trimmed, is assigned the rest, re-joined and
      trimmed. */
  method ReadHeaderLine(props: map<string, string>, line: string) returns (props': map<string, string>)
    ensures props' == Put(props, HeaderEntry(line))
  {
    props' := props;
    if line != "" && ':' in line {
      var parts := Split(line, ':');
      var key := Trim(parts[0]);
      if key != "__proto__" {
        props' := props'[key := Trim(Join(parts[1..], ':'))];
      }
    }
  }

  /** The header loop of `createMdcElement` over the source lines: it fills `props`
      and records `frontmatterEnd`. */
  method ReadFrontmatter(lines: seq<string>) returns (props: map<string, string>, frontmatterEnd: int)
    ensures props == Props(lines) && frontmatterEnd == FrontmatterEnd(lines)
  {
    frontmatterEnd := -1;
    props := map[];
    if |lines| > 0 && Trim(lines[0]) == "---" {
      var i := 1;
      while i < |lines|
        invariant 1 <= i <= |lines|
        invariant forall j :: 1 <= j < i ==> !IsRule(lines[j])
        invariant props == HeaderProps(lines[1..i])
        invariant frontmatterEnd == -1
      {
        if Trim(lines[i]) == "---" {
          frontmatterEnd := i;
          break;
        }
        props := ReadHeaderLine(props, Trim(lines[i]));
        HeaderPropsStep(lines, i);
        i := i + 1;
      }
      if frontmatterEnd == -1 {
        HeaderUnclosed(lines);
      } else {
        HeaderClosedAt(lines, frontmatterEnd);
      }
    }
  }

  /** `createMdcElement(tag, source)`. The tag is accepted and never read. */
  method CreateMdcElement(tag: string, source: string) returns (c: Container)
    ensures c == Embed(source)
  {
    var lines := Split(source, '\n');
    var props, frontmatterEnd := ReadFrontmatter(lines);
    var content := Trim(Join(lines[frontmatterEnd + 1..], '\n'));
    var title: Option<string> := None;
    if "title" in props && props["title"] != "" {
      title := Some(RemoveAll(props["title"], '"'));
    }
    var rendered: Option<string> := None;
    if content != "" {
      rendered := Some(ParseMarkdown(content));
    }
    c := Container(title, rendered);
  }

  /** The loop stops at line `i`: it is the closing `---`. */
  lemma HeaderClosedAt(lines: seq<string>, i: nat)
    requires OpensHeader(lines) && 1 <= i < |lines| && IsRule(lines[i])
    requires forall j :: 1 <= j < i ==> !IsRule(lines[j])
    ensures FrontmatterEnd(lines) == i && Props(lines) == HeaderProps(lines[1..i])
  {
    assert HeaderClose(lines, 1) == Some(i);
  }

  /** The loop runs out of lines: the header is unterminated, yet every line after
      the opening `---` has been read into the map. */
  lemma HeaderUnclosed(lines: seq<string>)
    requires OpensHeader(lines)
    requires forall j :: 1 <= j < |lines| ==> !IsRule(lines[j])
    ensures FrontmatterEnd(lines) == -1 && Props(lines) == HeaderProps(lines[1..|lines|])
  {
    assert HeaderClose(lines, 1).None?;
  }

  /** A header line is cut at its first colon: the key is the trimmed text before
      it and the value the trimmed text after it, colons included. */
  lemma HeaderEntryAtFirstColon(line: string)
    requires ':' in line
    ensures var i := IndexOf(line, ':');
      HeaderEntry(line) == Some((Trim(line[..i]), Trim(line[i + 1..])))
  {
    var i := IndexOf(line, ':');
    var rest := line[i + 1..];
    assert line == line[..i] + [':'] + rest;
    SplitLine(line[..i], rest, ':');
    var parts := Split(line, ':');
    assert parts[0] == line[..i] && parts[1..] == Split(rest, ':');
    JoinSplit(rest, ':');
  }

  /** The keys of the map are exactly the keys of the entries, bar `__proto__`. */
  lemma {:induction false} FoldKeys(es: seq<Entry>, key: string)
    ensures key in Fold(es) <==>
      key != "__proto__" && exists j :: 0 <= j < |es| && es[j].Some? && es[j].value.0 == key
  {
    if |es| > 0 {
      var init := es[..|es| - 1];
      FoldKeys(init, key);
      if exists j :: 0 <= j < |init| && init[j].Some? && init[j].value.0 == key {
        var j :| 0 <= j < |init| && init[j].Some? && init[j].value.0 == key;
        assert es[j] == init[j];
      }
      if exists j :: 0 <= j < |es| && es[j].Some? && es[j].value.0 == key {
        var j :| 0 <= j < |es| && es[j].Some? && es[j].value.0 == key;
        if j < |init| {
          assert init[j] == es[j];
        }
      }
    }
  }

  /** A later entry with the same key overwrites an earlier one: the value kept for
      a key is the one of the last entry that has it. */
  lemma {:induction false} FoldLastWins(es: seq<Entry>, j: nat, key: string, value: string)
    requires j < |es| && es[j] == Some((key, value)) && key != "__proto__"
    requires forall k :: j < k < |es| ==> es[k].None? || es[k].value.0 != key
    ensures key in Fold(es) && Fold(es)[key] == value
  {
    if j < |es| - 1 {
      var init := es[..|es| - 1];
      assert init[j] == es[j];
      forall k | j < k < |init|
        ensures init[k].None? || init[k].value.0 != key
      {
        assert init[k] == es[k];
      }
      FoldLastWins(init, j, key, value);
    }
  }

  /** One more header line read: its entry is put into the map. */
  lemma HeaderPropsStep(lines: seq<string>, i: nat)
    requires 1 <= i < |lines|
    ensures HeaderProps(lines[1..i + 1]) == Put(HeaderProps(lines[1..i]), HeaderEntry(Trim(lines[i])))
  {
    var es := Entries(lines[1..i + 1]);
    assert es[..i - 1] == Entries(lines[1..i]);
  }

  /** The closing `---` is found the same way once more lines follow it. */
  lemma {:induction false} HeaderCloseAppend(lines: seq<string>, rest: seq<string>, i: nat)
    requires i <= |lines| && HeaderClose(lines, i).Some?
    ensures HeaderClose(lines + rest, i) == HeaderClose(lines, i)
    decreases |lines| - i
  {
    assert (lines + rest)[i] == lines[i];
    if !IsRule(lines[i]) {
      HeaderCloseAppend(lines, rest, i + 1);
    }
  }

  /** Only the header is read for `props`: lines after the closing `---` change
      neither the map nor `frontmatterEnd`. */
  lemma PropsIgnoreBody(lines: seq<string>, rest: seq<string>)
    requires FrontmatterEnd(lines) >= 0
    ensures FrontmatterEnd(lines + rest) == FrontmatterEnd(lines)
    ensures Props(lines + rest) == Props(lines)
  {
    HeaderCloseAppend(lines, rest, 1);
    var e := FrontmatterEnd(lines);
    assert (lines + rest)[0] == lines[0];
    assert (lines + rest)[1..e] == lines[1..e];
  }

  /** Without a closed header the body is the whole source, trimmed; the lines of an
      unterminated header are still read into the map. */
  lemma BodyWithoutHeader(source: string)
    requires FrontmatterEnd(Split(source, '\n')) == -1
    ensures Body(source) == Trim(source)
    ensures OpensHeader(Split(source, '\n')) ==>
      Props(Split(source, '\n')) == HeaderProps(Split(source, '\n')[1..])
  {
    var lines := Split(source, '\n');
    JoinSplit(source, '\n');
    assert lines[0..] == lines;
    if OpensHeader(lines) {
      assert HeaderClose(lines, 1).None?;
      assert lines[1..|lines|] == lines[1..];
    }
  }

  /** With a closed header the body is the text after the closing line's break,
      trimmed, and it is empty when the closing line is the last one. */
  lemma BodyAfterHeader(source: string)
    requires FrontmatterEnd(Split(source, '\n')) >= 0
    ensures var lines := Split(source, '\n');
      var e := FrontmatterEnd(lines);
      if e + 1 < |lines| then
        var head := Join(lines[..e + 1], '\n');
        && |head| + 1 <= |source|
        && source == head + "\n" + source[|head| + 1..]
        && Body(source) == Trim(source[|head| + 1..])
      else
        Body(source) == ""
  {
    var lines := Split(source, '\n');
    var e := FrontmatterEnd(lines);
    JoinSplit(source, '\n');
    if e + 1 < |lines| {
      JoinAt(lines, e, '\n');
      var head := Join(lines[..e + 1], '\n');
      assert source[|head| + 1..] == Join(lines[e + 1..], '\n');
    } else {
      assert lines[e + 1..] == [];
    }
  }

  /** The container's shape: a title child exactly when `props.title` is a non-empty
      string, holding no double quote; a content child exactly when the trimmed body
      is non-empty, holding its rendering, which has no line break. */
  lemma ContainerShape(source: string)
    ensures var c := Embed(source);
      var props := Props(Split(source, '\n'));
      && (c.title.Some? <==> "title" in props && props["title"] != "")
      && (c.title.Some? ==> '"' !in c.title.value && c.title.value == RemoveAll(props["title"], '"'))
      && (c.content.Some? <==> Body(source) != "")
      && (c.content.Some? ==> '\n' !in c.content.value && c.content.value == ParseMarkdown(Body(source)))
  {
  }

  /** A header of one line between two `---` lines: the map holds that line's entry
      and the body is the rest of the source, trimmed. */
  lemma OneEntryHeader(line: string, body: string)
    requires '\n' !in line && !IsRule(line)
    ensures var source := "---\n" + line + "\n---\n" + body;
      && Props(Split(source, '\n')) == Put(map[], HeaderEntry(Trim(line)))
      && Body(source) == Trim(body)
  {
    var source := "---\n" + line + "\n---\n" + body;
    var rule := "---";
    assert source == rule + ['\n'] + (line + ['\n'] + (rule + ['\n'] + body));
    SplitLine(rule, body, '\n');
    SplitLine(line, rule + ['\n'] + body, '\n');
    SplitLine(rule, line + ['\n'] + (rule + ['\n'] + body), '\n');
    var lines := Split(source, '\n');
    assert lines == [rule, line, rule] + Split(body, '\n');
    assert IsRule(rule) by { assert Trim(rule) == rule; }
    HeaderClosedAt(lines, 2);
    assert lines[1..2] == [line];
    var es := Entries([line]);
    assert es == [HeaderEntry(Trim(line))];
    assert es[..0] == [];
    assert Fold(es) == Put(Fold(es[..0]), es[0]);
    assert lines[3..] == Split(body, '\n');
    JoinSplit(body, '\n');
  }

  /** A header line `key: value` whose key holds no colon and whose key and value
      are already trimmed holds exactly that entry. */
  lemma KeyValueLine(key: string, value: string)
    requires |key| > 0 && !IsSpace(key[0]) && !IsSpace(key[|key| - 1]) && ':' !in key
    requires |value| > 0 && !IsSpace(value[0]) && !IsSpace(value[|value| - 1])
    ensures HeaderEntry(Trim(key + ": " + value)) == Some((key, value))
  {
    var line := key + ": " + value;
    assert line[0] == key[0] && line[|line| - 1] == value[|value| - 1];
    TrimKeeps(line);
    var c := |key|;
    assert line[c] == ':' && line[..c] == key;
    HeaderEntryAtFirstColon(line);
    TrimKeeps(key);
    assert line[c + 1..] == [' '] + value;
    assert TrimStart([' '] + value) == TrimStart(value);
    TrimKeeps(value);
  }

  /** The header line `title: "name"` is a single line, not a rule, and holds the
      entry `title`, its value keeping the quotes. */
  lemma TitleLine(name: string)
    requires forall k :: 0 <= k < |name| ==> name[k] != '"' && name[k] != '\n'
    ensures var line := "title: \"" + name + "\"";
      && '\n' !in line && !IsRule(line)
      && HeaderEntry(Trim(line)) == Some(("title", "\"" + name + "\""))
  {
    var key := "title";
    var value := "\"" + name + "\"";
    var line := key + ": " + value;
    assert line == "title: \"" + name + "\"";
    KeyValueLine(key, value);
    assert Trim(line) != "---" by {
      assert line[0] == 't' && line[|line| - 1] == '"';
      TrimKeeps(line);
    }
  }

  /** Quoting the title is undone when the container is built. */
  lemma Unquote(name: string)
    requires forall k :: 0 <= k < |name| ==> name[k] != '"'
    ensures RemoveAll("\"" + name + "\"", '"') == name
  {
    RemoveAllAppend("\"" + name, "\"", '"');
    RemoveAllAppend("\"", name, '"');
    RemoveAllAbsent(name, '"');
  }

  /** The body `**x**y` is its own trim, and it renders as `x` in bold followed by `y`. */
  lemma BoldBody(x: string, y: string)
    requires Plain(x) && Plain(y) && (y == "" || !IsSpace(y[|y| - 1]))
    ensures var body := "**" + x + "**" + y;
      Trim(body) == body && ParseMarkdown(body) == "<strong>" + x + "</strong>" + y
  {
    var body := "**" + x + "**" + y;
    assert body[0] == '*';
    if y == "" {
      assert body[|body| - 1] == '*';
    } else {
      assert body[|body| - 1] == y[|y| - 1];
    }
    TrimKeeps(body);
    StrongThenPlain(x, y);
  }

  /** A source with the one header line `title: "name"` and the body `**x**y`
      (no star, backtick or line break in `x` and `y`) gives a container titled
      `name`, holding `x` in bold followed by `y`. */
  lemma TitledEmbed(name: string, x: string, y: string)
    requires forall k :: 0 <= k < |name| ==> name[k] != '"' && name[k] != '\n'
    requires Plain(x) && Plain(y) && (y == "" || !IsSpace(y[|y| - 1]))
    ensures Embed("---\ntitle: \"" + name + "\"\n---\n**" + x + "**" + y)
      == Container(Some(name), Some("<strong>" + x + "</strong>" + y))
  {
    var line := "title: \"" + name + "\"";
    var body := "**" + x + "**" + y;
    var source := "---\n" + line + "\n---\n" + body;
    assert source == "---\ntitle: \"" + name + "\"\n---\n**" + x + "**" + y;
    TitleLine(name);
    OneEntryHeader(line, body);
    Unquote(name);
    BoldBody(x, y);
    var value := "\"" + name + "\"";
    var props := Props(Split(source, '\n'));
    assert "title" != "__proto__" by { assert |"title"| != |"__proto__"|; }
    assert props == map["title" := value];
    assert "title" in props && props["title"] == value;
    assert |value| >= 2;
    assert Title(props) == Some(RemoveAll(value, '"'));
    assert Body(source) == body;
  }

  /** The block source `---`, `title: "Hello World"`, `---`, `**bold** text` gives
      a container titled `Hello World` whose content is
      `<strong>bold</strong> text` (the strings are written as the pieces the
      general lemma glues together). */
  lemma HelloWorldEmbed()
    ensures Embed("---\ntitle: \"" + "Hello World" + "\"\n---\n**" + "bold" + "**" + " text")
      == Container(Some("Hello World"), Some("<strong>" + "bold" + "</strong>" + " text"))
  {
    TitledEmbed("Hello World", "bold", " text");
  }
}
