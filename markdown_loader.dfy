/**
 * The Markdown post loader (`getPostData` in lib/blogs.ts): the title, date and author come
 * from the first three lines, the content from the first non-blank line after them, and
 * the excerpt from the first 200 characters of the content.
 */
module MarkdownLoader {
  import opened Wrappers
  import opened Text
  import opened Posts

  const MaxExcerptSource: nat := 200
  const Ellipsis: String := "..."
  const HeaderLines: nat := 3

  // ---------------------------------------------------------------------------------------
  // Header lines

  /** The replace of `^#\s*` by nothing: one leading `#` and the whitespace after it. */
  function DropHash(line: String): (r: String)
    ensures line != [] && line[0] == '#' ==> r == TrimStart(line[1..])
    ensures (line == [] || line[0] != '#') ==> r == line
  {
    if line != [] && line[0] == '#' then TrimStart(line[1..]) else line
  }

  /** Line 0 without its leading `#`, trimmed, or "Untitled" when that is empty. */
  function Title(lines: seq<String>): (r: String)
    requires |lines| >= 1
    ensures r != []
    ensures r == "Untitled" || (r == Trim(DropHash(lines[0])))
    ensures Trim(DropHash(lines[0])) != [] ==> r == Trim(DropHash(lines[0]))
  {
    var t := Trim(DropHash(lines[0]));
    if t == [] then "Untitled" else t
  }

  /** Characters `.` does not match. */
  predicate IsLineTerminator(c: char) { c == '\n' || c == '\r' }

  predicate NoLineTerminator(s: String) { forall i :: 0 <= i < |s| ==> !IsLineTerminator(s[i]) }

  /** The length of the whitespace run at the start of `s`. */
  function LeadingSpace(s: String): (n: nat)
    ensures n <= |s| && forall i :: 0 <= i < n ==> IsSpace(s[i])
    ensures n == |s| || !IsSpace(s[n])
  {
    |s| - |TrimStart(s)|
  }

  /**
   * The capture of `^<key>\s{min,}(.+)$` on `line` (`min` is 0 for `\s*`, 1 for `\s+`): the
   * greedy whitespace run gives back characters only when `.+` would otherwise be empty.
   */
  function KeyedValue(line: String, key: String, min: nat): (r: Option<String>)
    ensures r.Some? ==> r.value != [] && NoLineTerminator(r.value) && EndsWith(line, r.value)
    ensures r.Some? ==> StartsWith(line, key)
  {
    if !StartsWith(line, key) then None
    else
      var after := line[|key|..];
      var w := LeadingSpace(after);
      if w < |after| then
        if w >= min && NoLineTerminator(after[w..]) then Some(after[w..]) else None
      else if w > min && !IsLineTerminator(after[w - 1]) then Some(after[w - 1..])
      else None
  }

  /**
   * On a trimmed line the capture is the whole text after the key and the whitespace that
   * follows it, as long as that text has no carriage return.
   */
  lemma KeyedValueTrimmed(line: String, key: String, min: nat)
    requires line == Trim(line) && StartsWith(line, key) && key != [] && !IsSpace(key[0])
    ensures var after := line[|key|..];
      var rest := after[LeadingSpace(after)..];
      KeyedValue(line, key, min) ==
        if rest != [] && LeadingSpace(after) >= min && NoLineTerminator(rest) then Some(rest) else None
  {
    var after := line[|key|..];
    var w := LeadingSpace(after);
    if w == |after| && w > 0 {
      assert false;
    }
  }

  /** `line?.trim() || ''`: the trimmed line, or "" past the end of the file. */
  function TrimmedLine(lines: seq<String>, k: nat): String
  {
    if k < |lines| then Trim(lines[k]) else ""
  }

  /** The date: the trimmed capture of `^Date:\s*(.+)$` on line 1, else the build date. */
  function Date(lines: seq<String>, today: String): String
  {
    match KeyedValue(TrimmedLine(lines, 1), "Date:", 0)
    case Some(v) => Trim(v)
    case None => today
  }

  /** The author: the trimmed capture of `^By\s+(.+)$` on line 2, else "Unknown Author". */
  function Author(lines: seq<String>): String
  {
    match KeyedValue(TrimmedLine(lines, 2), "By", 1)
    case Some(v) => Trim(v)
    case None => "Unknown Author"
  }

  /**
   * The three header fields depend on their own line only: changing any other line, or the
   * build date, leaves the title and the author as they were, and the date falls back to the
   * build date exactly when line 1 does not match.
   */
  lemma HeaderFieldsIndependent(lines: seq<String>, other: seq<String>, today: String, today2: String)
    requires |lines| >= 1 && |other| >= 1
    ensures lines[0] == other[0] ==> Title(lines) == Title(other)
    ensures TrimmedLine(lines, 1) == TrimmedLine(other, 1) ==> Date(lines, today) == Date(other, today)
    ensures TrimmedLine(lines, 2) == TrimmedLine(other, 2) ==> Author(lines) == Author(other)
    ensures KeyedValue(TrimmedLine(lines, 1), "Date:", 0).None? ==> Date(lines, today) == today
    ensures KeyedValue(TrimmedLine(lines, 1), "Date:", 0).Some? ==> Date(lines, today) == Date(lines, today2)
  {
  }

  // ---------------------------------------------------------------------------------------
  // Where the content starts

  predicate Blank(line: String) { Trim(line) == [] }

  /** The index the `contentStartIndex` loop stops at. */
  function ContentStart(lines: seq<String>, i: nat): (r: nat)
    ensures i <= r && (i <= |lines| ==> r <= |lines|)
    decreases |lines| - i
  {
    if i < |lines| && Blank(lines[i]) then ContentStart(lines, i + 1) else i
  }

  /** The lines the loop passes over are blank, and the line it stops at, if any, is not. */
  lemma {:induction false} ContentStartSkipsBlank(lines: seq<String>, i: nat)
    ensures forall j :: i <= j < ContentStart(lines, i) ==> j < |lines| && Blank(lines[j])
    ensures ContentStart(lines, i) < |lines| ==> !Blank(lines[ContentStart(lines, i)])
    decreases |lines| - i
  {
    if i < |lines| && Blank(lines[i]) {
      ContentStartSkipsBlank(lines, i + 1);
      assert ContentStart(lines, i) == ContentStart(lines, i + 1);
    } else {
      assert ContentStart(lines, i) == i;
    }
  }

  /** `contentStartIndex` starts at 3 and skips blank lines. */
  method FindContentStart(lines: seq<String>) returns (contentStartIndex: nat)
    ensures contentStartIndex == ContentStart(lines, HeaderLines)
    ensures HeaderLines <= contentStartIndex
    ensures forall j :: HeaderLines <= j < contentStartIndex ==> j < |lines| && Blank(lines[j])
    ensures contentStartIndex < |lines| ==> !Blank(lines[contentStartIndex])
  {
    contentStartIndex := HeaderLines;
    while contentStartIndex < |lines| && Blank(lines[contentStartIndex])
      invariant HeaderLines <= contentStartIndex
      invariant ContentStart(lines, contentStartIndex) == ContentStart(lines, HeaderLines)
      decreases |lines| - contentStartIndex
    {
      contentStartIndex := contentStartIndex + 1;
    }
    ContentStartSkipsBlank(lines, HeaderLines);
  }

  /** `lines.slice(contentStartIndex).join('\n')`; the slice is empty past the end. */
  function Content(lines: seq<String>): String
  {
    var k := ContentStart(lines, HeaderLines);
    if k < |lines| then Join(lines[k..], '\n') else ""
  }

  /** Where line `i` starts in the joined text. */
  function LineOffset(parts: seq<String>, i: nat): nat
    requires i <= |parts|
  {
    if i == 0 then 0 else LineOffset(parts, i - 1) + |parts[i - 1]| + 1
  }

  /** Dropping the first `i` lines of a join drops the text up to the start of line `i`. */
  lemma {:induction false} JoinDrop(parts: seq<String>, sep: char, i: nat)
    requires i < |parts|
    ensures LineOffset(parts, i) <= |Join(parts, sep)|
    ensures Join(parts, sep)[LineOffset(parts, i)..] == Join(parts[i..], sep)
    decreases i
  {
    if i > 0 {
      JoinDrop(parts[1..], sep, i - 1);
      LineOffsetTail(parts, i);
      assert parts[1..][i - 1..] == parts[i..];
      assert Join(parts, sep) == parts[0] + [sep] + Join(parts[1..], sep);
    }
  }

  lemma {:induction false} LineOffsetTail(parts: seq<String>, i: nat)
    requires 0 < i <= |parts|
    ensures LineOffset(parts, i) == |parts[0]| + 1 + LineOffset(parts[1..], i - 1)
    decreases i
  {
    if i > 1 {
      LineOffsetTail(parts, i - 1);
      assert parts[1..][i - 2] == parts[i - 1];
    }
  }

  /**
   * The content is the file itself from the start of the first non-blank line after the
   * header to the end, or empty when there is no such line.
   */
  lemma ContentIsSuffix(fileContents: String)
    ensures var lines := Split(fileContents, '\n');
      var k := ContentStart(lines, HeaderLines);
      if k < |lines| then
        LineOffset(lines, k) <= |fileContents| && Content(lines) == fileContents[LineOffset(lines, k)..]
      else Content(lines) == ""
  {
    var lines := Split(fileContents, '\n');
    var k := ContentStart(lines, HeaderLines);
    JoinSplit(fileContents, '\n');
    if k < |lines| {
      JoinDrop(lines, '\n', k);
    }
  }

  // ---------------------------------------------------------------------------------------
  // Excerpt and record

  /** `content.slice(0, 200).replace(/[#*]/g, '').trim() + '...'`. */
  function MarkdownExcerpt(content: String): String
  {
    var head := content[..if |content| < MaxExcerptSource then |content| else MaxExcerptSource];
    Trim(RemoveChars(head, {'#', '*'})) + Ellipsis
  }

  /** The excerpt ends with "...", has at most 203 characters, and no `#` or `*` before the dots. */
  lemma MarkdownExcerptShape(content: String)
    ensures EndsWith(MarkdownExcerpt(content), Ellipsis)
    ensures |MarkdownExcerpt(content)| <= MaxExcerptSource + |Ellipsis|
    ensures var e := MarkdownExcerpt(content);
      forall i :: 0 <= i < |e| - |Ellipsis| ==> e[i] != '#' && e[i] != '*'
  {
    var head := content[..if |content| < MaxExcerptSource then |content| else MaxExcerptSource];
    var r := RemoveChars(head, {'#', '*'});
    TrimSlice(r);
    var e := MarkdownExcerpt(content);
    assert e[|e| - |Ellipsis|..] == Ellipsis;
    forall i | 0 <= i < |e| - |Ellipsis| ensures e[i] != '#' && e[i] != '*' {
      var off := |r| - |TrimStart(r)|;
      assert e[i] == Trim(r)[i] == r[off + i];
    }
  }

  /** `getPostData`: `None` when `blog.md` is missing (`fileContents`), else the post record. */
  function GetPostData(slug: String, fileContents: Option<String>, today: String): Option<BlogPost>
  {
    match fileContents
    case None => None
    case Some(text) =>
      var lines := Split(text, '\n');
      var content := Content(lines);
      Some(BlogPost(slug, Title(lines), MarkdownExcerpt(content), Date(lines, today), Author(lines),
                    content, "Blog", None))
  }

  /** The record echoes the slug, is a "Blog", carries no link, and has a non-empty title. */
  lemma PostDataShape(slug: String, fileContents: Option<String>, today: String)
    ensures GetPostData(slug, fileContents, today).None? <==> fileContents.None?
    ensures GetPostData(slug, fileContents, today).Some? ==>
      var p := GetPostData(slug, fileContents, today).value;
      p.slug == slug && p.category == "Blog" && p.link.None? && p.title != [] &&
      p.content == Content(Split(fileContents.value, '\n'))
  {
  }
}
