/**
 * ASCII string primitives standing in for the JavaScript and Python string methods the
 * pipeline uses: `trim`/`strip`, `indexOf`/`in`, `split`/`join`, `replace`, decimal
 * formatting and `parseInt`, and `\s+` collapsing. Characters outside ASCII are carried
 * through unchanged but are never classified as letters, digits or whitespace.
 */
module Text {
  import opened Wrappers

  type String = seq<char>

  /** The characters `\s` matches and `trim()`/`strip()` remove (ASCII part). */
  const Whitespace: set<char> := {' ', '\t', '\n', '\r', 11 as char, 12 as char}

  predicate IsSpace(c: char) { c in Whitespace }

  /** A JavaScript optional string that is neither `undefined` nor empty. */
  predicate Truthy(s: Option<String>) { s.Some? && s.value != [] }

  /** No two hyphens in a row. */
  predicate NoDoubleDash(s: String)
  {
    forall i :: 0 <= i < |s| - 1 ==> !(s[i] == '-' && s[i + 1] == '-')
  }
  predicate IsDigit(c: char) { '0' <= c <= '9' }
  predicate IsLower(c: char) { 'a' <= c <= 'z' }
  predicate IsUpper(c: char) { 'A' <= c <= 'Z' }
  predicate IsLetter(c: char) { IsLower(c) || IsUpper(c) }

  /** `\w` for ASCII: letters, digits and underscore. */
  predicate IsWordChar(c: char) { IsLetter(c) || IsDigit(c) || c == '_' }

  predicate AllDigits(s: String) { forall i :: 0 <= i < |s| ==> IsDigit(s[i]) }

  predicate NoSpaceIn(s: String) { forall i :: 0 <= i < |s| ==> !IsSpace(s[i]) }

  // ----------------------------------------------------------------------------------
  // Case

  function LowerChar(c: char): (r: char)
    ensures IsUpper(c) ==> IsLower(r)
    ensures !IsUpper(c) ==> r == c
    ensures IsLower(r) <==> IsLower(c) || IsUpper(c)
  {
    if IsUpper(c) then (c as int + 32) as char else c
  }

  /** `toLowerCase()` / `lower()` restricted to ASCII letters. */
  function ToLower(s: String): (r: String)
    ensures |r| == |s|
    ensures forall i :: 0 <= i < |s| ==> r[i] == LowerChar(s[i])
  {
    seq(|s|, i requires 0 <= i < |s| => LowerChar(s[i]))
  }

  // ----------------------------------------------------------------------------------
  // Stripping characters from the ends (`trim`, `strip`, `lstrip`, `rstrip`)

  function StripStart(s: String, cs: set<char>): (r: String)
    ensures |r| <= |s| && r == s[|s| - |r|..]
    ensures forall i :: 0 <= i < |s| - |r| ==> s[i] in cs
    ensures r == [] || r[0] !in cs
    decreases |s|
  {
    if s != [] && s[0] in cs then StripStart(s[1..], cs) else s
  }

  function StripEnd(s: String, cs: set<char>): (r: String)
    ensures |r| <= |s| && r == s[..|r|]
    ensures forall i :: |r| <= i < |s| ==> s[i] in cs
    ensures r == [] || r[|r| - 1] !in cs
    decreases |s|
  {
    if s != [] && s[|s| - 1] in cs then StripEnd(s[..|s| - 1], cs) else s
  }

  function Strip(s: String, cs: set<char>): (r: String)
    ensures |r| <= |s|
    ensures r == [] || (r[0] !in cs && r[|r| - 1] !in cs)
    ensures |r| <= |StripStart(s, cs)| && r == s[|s| - |StripStart(s, cs)|..][..|r|]
  {
    StripEnd(StripStart(s, cs), cs)
  }

  /** What `Strip` keeps is one contiguous piece of the text. */
  lemma StripIsSlice(s: String, cs: set<char>) returns (off: nat)
    ensures off + |Strip(s, cs)| <= |s| && Strip(s, cs) == s[off..off + |Strip(s, cs)|]
  {
    off := |s| - |StripStart(s, cs)|;
    assert Strip(s, cs) == s[off..][..|Strip(s, cs)|];
  }

  function TrimStart(s: String): (r: String)
    ensures |r| <= |s| && r == s[|s| - |r|..]
    ensures forall i :: 0 <= i < |s| - |r| ==> IsSpace(s[i])
    ensures r == [] || !IsSpace(r[0])
  {
    StripStart(s, Whitespace)
  }

  /** JavaScript `trim()` and Python `strip()` without arguments. */
  function Trim(s: String): (r: String)
    ensures |r| <= |s|
    ensures r == [] || (!IsSpace(r[0]) && !IsSpace(r[|r| - 1]))
  {
    Strip(s, Whitespace)
  }

  /** The trimmed text is a contiguous piece of the original, starting after the leading whitespace. */
  lemma TrimSlice(s: String)
    ensures |s| - |TrimStart(s)| + |Trim(s)| <= |s|
    ensures Trim(s) == s[|s| - |TrimStart(s)|..|s| - |TrimStart(s)| + |Trim(s)|]
  {
    var off := |s| - |TrimStart(s)|;
    assert Trim(s) == s[off..][..|Trim(s)|];
  }

  /** `t` is the piece of `s` that starts at `a`. */
  predicate PieceAt(s: String, t: String, a: nat)
  {
    a + |t| <= |s| && forall k :: 0 <= k < |t| ==> t[k] == s[a + k]
  }

  /** A piece of a piece of `s` is a piece of `s`. */
  lemma PieceCompose(s: String, t: String, a: nat, u: String, b: nat)
    requires PieceAt(s, t, a) && PieceAt(t, u, b)
    ensures PieceAt(s, u, a + b)
  {
  }

  lemma PieceIsSlice(s: String, t: String, a: nat)
    requires PieceAt(s, t, a)
    ensures t == s[a..a + |t|]
  {
  }

  /** Stripping the end of a piece of `s` leaves a piece at the same place. */
  lemma StripEndOfPiece(s: String, t: String, a: nat, cs: set<char>, u: String)
    requires PieceAt(s, t, a) && u == StripEnd(t, cs)
    ensures PieceAt(s, u, a)
  {
  }

  lemma PrefixPiece(s: String, i: nat)
    requires i <= |s|
    ensures PieceAt(s, s[..i], 0)
  {
  }

  lemma SuffixPiece(s: String, j: nat)
    requires j <= |s|
    ensures PieceAt(s, s[j..], j)
  {
  }

  /** What `Strip` keeps is a piece of the text. */
  lemma StripPiece(s: String, cs: set<char>) returns (o: nat)
    ensures PieceAt(s, Strip(s, cs), o)
  {
    o := StripIsSlice(s, cs);
    var t := Strip(s, cs);
    assert forall k :: 0 <= k < |t| ==> t[k] == s[o..o + |t|][k];
  }

  /** Stripping a piece of `s` leaves a piece of `s`. */
  lemma StripOfPiece(s: String, t: String, a: nat, cs: set<char>, u: String) returns (b: nat)
    requires PieceAt(s, t, a) && u == Strip(t, cs)
    ensures PieceAt(s, u, b) && a <= b
  {
    var o := StripPiece(t, cs);
    PieceCompose(s, t, a, u, o);
    b := a + o;
  }

  // ----------------------------------------------------------------------------------
  // Searching

  predicate OccursAt(s: String, pat: String, i: nat)
  {
    i + |pat| <= |s| && s[i..i + |pat|] == pat
  }

  predicate StartsWith(s: String, p: String) { OccursAt(s, p, 0) }

  predicate EndsWith(s: String, p: String) { |p| <= |s| && s[|s| - |p|..] == p }

  /** Where a text occurs, so does each of its prefixes. */
  lemma OccursPrefix(s: String, pat: String, pre: String, j: nat)
    requires OccursAt(s, pat, j) && StartsWith(pat, pre)
    ensures OccursAt(s, pre, j)
  {
    assert s[j..j + |pre|] == s[j..j + |pat|][..|pre|];
  }

  /** What follows a prefix starts with the rest of a longer prefix. */
  lemma StartsWithDrop(s: String, p: String, q: String)
    requires StartsWith(s, p + q)
    ensures StartsWith(s[|p|..], q)
  {
    assert s[|p|..][..|q|] == (p + q)[|p|..];
  }

  /** A suffix of a suffix is a suffix. */
  lemma EndsWithTrans(a: String, b: String, c: String)
    requires EndsWith(a, b) && EndsWith(b, c)
    ensures EndsWith(a, c)
  {
    assert a[|a| - |c|..] == b[|b| - |c|..];
  }

  /** The first occurrence of `pat` at or after `from`. */
  function IndexOfFrom(s: String, pat: String, from: nat): (r: Option<nat>)
    ensures r.Some? ==> from <= r.value && OccursAt(s, pat, r.value)
    decreases |s| - from
  {
    if from + |pat| > |s| then None
    else if OccursAt(s, pat, from) then Some(from)
    else IndexOfFrom(s, pat, from + 1)
  }

  /** No occurrence is skipped: the result is the first one, and `None` means there is none. */
  lemma {:induction false} IndexOfFromFirst(s: String, pat: String, from: nat)
    ensures IndexOfFrom(s, pat, from).Some? ==>
      forall j :: from <= j < IndexOfFrom(s, pat, from).value ==> !OccursAt(s, pat, j)
    ensures IndexOfFrom(s, pat, from).None? ==> forall j :: from <= j ==> !OccursAt(s, pat, j)
    decreases |s| - from
  {
    if from + |pat| <= |s| && !OccursAt(s, pat, from) {
      IndexOfFromFirst(s, pat, from + 1);
    }
  }

  /** An occurrence inside a slice is an occurrence in the whole string, shifted. */
  lemma OccursInSlice(s: String, a: nat, b: nat, pat: String, j: nat)
    requires a <= b <= |s| && a + j + |pat| <= b
    ensures OccursAt(s[a..b], pat, j) <==> OccursAt(s, pat, a + j)
  {
    var x, y := s[a..b][j..j + |pat|], s[a + j..a + j + |pat|];
    forall i | 0 <= i < |pat| ensures x[i] == y[i] {
      assert x[i] == s[a + j + i] == y[i];
    }
    assert x == y;
  }

  /** An occurrence with none before it (from `from` on) is the one `IndexOfFrom` finds. */
  lemma {:induction false} IndexOfFromIs(s: String, pat: String, from: nat, k: nat)
    requires from <= k && OccursAt(s, pat, k)
    requires forall j :: from <= j < k ==> !OccursAt(s, pat, j)
    ensures IndexOfFrom(s, pat, from) == Some(k)
    decreases k - from
  {
    if from < k {
      IndexOfFromIs(s, pat, from + 1, k);
    }
  }

  function IndexOf(s: String, pat: String): Option<nat>
  {
    IndexOfFrom(s, pat, 0)
  }

  /** `s.includes(pat)` / `pat in s`. */
  predicate Contains(s: String, pat: String)
  {
    IndexOf(s, pat).Some?
  }

  lemma ContainsIff(s: String, pat: String)
    ensures Contains(s, pat) <==> exists i: nat :: OccursAt(s, pat, i)
  {
    IndexOfFromFirst(s, pat, 0);
  }

  /**
   * The leftmost match at or after `from` of the lazy regular expression
   * `open[\s\S]*?close` (both literal): `open` at `p` and the first `close` at some
   * `q >= p + |open|`. The result is `(p, q)`.
   */
  function FindDelimited(s: String, open: String, close: String, from: nat): (r: Option<(nat, nat)>)
    ensures r.Some? ==> from <= r.value.0 && r.value.0 + |open| <= r.value.1
    ensures r.Some? ==> OccursAt(s, open, r.value.0) && OccursAt(s, close, r.value.1)
  {
    match IndexOfFrom(s, open, from)
    case None => None
    case Some(p) =>
      match IndexOfFrom(s, close, p + |open|)
      case None => None
      case Some(q) => Some((p, q))
  }

  /**
   * The match is the leftmost one: no `open` before it, no `close` inside it; and `None`
   * means that no `open` at or after `from` is followed by a `close`.
   */
  lemma FindDelimitedLeftmost(s: String, open: String, close: String, from: nat)
    ensures var r := FindDelimited(s, open, close, from);
      r.Some? ==> forall j :: from <= j < r.value.0 ==> !OccursAt(s, open, j)
    ensures var r := FindDelimited(s, open, close, from);
      r.Some? ==> forall j :: r.value.0 + |open| <= j < r.value.1 ==> !OccursAt(s, close, j)
    ensures FindDelimited(s, open, close, from).None? ==>
      forall j, i :: from <= j && j + |open| <= i && OccursAt(s, open, j) ==> !OccursAt(s, close, i)
  {
    IndexOfFromFirst(s, open, from);
    var po := IndexOfFrom(s, open, from);
    if po.Some? {
      var p := po.value;
      IndexOfFromFirst(s, close, p + |open|);
      if IndexOfFrom(s, close, p + |open|).None? {
        forall j, i | from <= j && j + |open| <= i && OccursAt(s, open, j) ensures !OccursAt(s, close, i) {
          assert p <= j;
        }
      }
    }
  }


  /** The first occurrence of a single character at or after `from`. */
  function FindChar(s: String, c: char, from: nat): (r: Option<nat>)
    ensures r.Some? ==> from <= r.value < |s| && s[r.value] == c
    ensures r.Some? ==> forall j :: from <= j < r.value ==> s[j] != c
    ensures r.None? ==> forall j :: from <= j < |s| ==> s[j] != c
    decreases |s| - from
  {
    if from >= |s| then None
    else if s[from] == c then Some(from)
    else FindChar(s, c, from + 1)
  }

  // ----------------------------------------------------------------------------------
  // Splitting and joining on one separator character

  /** `s.split(sep)` for a one-character separator: never empty, pieces free of `sep`. */
  function Split(s: String, sep: char): (r: seq<String>)
    ensures |r| >= 1
    ensures forall k :: 0 <= k < |r| ==> sep !in r[k]
    decreases |s|
  {
    match FindChar(s, sep, 0)
    case None => [s]
    case Some(i) => [s[..i]] + Split(s[i + 1..], sep)
  }

  /** `parts.join(sep)` / `sep.join(parts)`. */
  function Join(parts: seq<String>, sep: char): String
    decreases |parts|
  {
    if parts == [] then []
    else if |parts| == 1 then parts[0]
    else parts[0] + [sep] + Join(parts[1..], sep)
  }

  lemma {:induction false} JoinSplit(s: String, sep: char)
    ensures Join(Split(s, sep), sep) == s
    decreases |s|
  {
    match FindChar(s, sep, 0)
    case None =>
    case Some(i) =>
      JoinSplit(s[i + 1..], sep);
      JoinSplitStep(s, sep, i, s[..i], s[i + 1..]);
  }

  lemma {:induction false} JoinSplitStep(s: String, sep: char, i: nat, head: String, tail: String)
    requires FindChar(s, sep, 0) == Some(i) && head == s[..i] && tail == s[i + 1..]
    requires Join(Split(tail, sep), sep) == tail
    ensures Join(Split(s, sep), sep) == s
  {
    var t := Split(tail, sep);
    assert Split(s, sep) == [head] + t;
    JoinCons(head, t, sep);
    assert s == head + [sep] + tail;
  }

  /** Joining a piece in front of at least one more puts the separator between them. */
  lemma JoinCons(a: String, t: seq<String>, sep: char)
    requires t != []
    ensures Join([a] + t, sep) == a + [sep] + Join(t, sep)
  {
    assert ([a] + t)[1..] == t;
  }

  lemma {:induction false} SplitJoin(parts: seq<String>, sep: char)
    requires |parts| >= 1
    requires forall k :: 0 <= k < |parts| ==> sep !in parts[k]
    ensures Split(Join(parts, sep), sep) == parts
    decreases |parts|
  {
    if |parts| == 1 {
      assert FindChar(Join(parts, sep), sep, 0).None?;
    } else {
      SplitJoin(parts[1..], sep);
      SplitJoinStep(parts[0], parts[1..], sep);
      assert parts == [parts[0]] + parts[1..];
    }
  }

  lemma {:induction false} SplitJoinStep(a: String, t: seq<String>, sep: char)
    requires t != [] && sep !in a && Split(Join(t, sep), sep) == t
    ensures Split(Join([a] + t, sep), sep) == [a] + t
  {
    var rest := Join(t, sep);
    var s := a + [sep] + rest;
    JoinCons(a, t, sep);
    FindCharAfter(a, sep, rest);
    assert s[..|a|] == a;
    assert s[|a| + 1..] == rest;
  }

  /** The first `sep` of `a + [sep] + rest`, when `a` has none, is the one after `a`. */
  lemma FindCharAfter(a: String, sep: char, rest: String)
    requires sep !in a
    ensures FindChar(a + [sep] + rest, sep, 0) == Some(|a|)
  {
    var s := a + [sep] + rest;
    var r := FindChar(s, sep, 0);
    assert s[|a|] == sep;
  }

  // ----------------------------------------------------------------------------------
  // Replacing

  /** JavaScript `s.replace(pat, rep)` with a string pattern: the first occurrence only. */
  function ReplaceFirst(s: String, pat: String, rep: String): (r: String)
    ensures IndexOf(s, pat).None? ==> r == s
    ensures IndexOf(s, pat).Some? ==>
              r == s[..IndexOf(s, pat).value] + rep + s[IndexOf(s, pat).value + |pat|..]
  {
    match IndexOf(s, pat)
    case None => s
    case Some(i) => s[..i] + rep + s[i + |pat|..]
  }

  /** Python `s.replace(pat, "")`: every non-overlapping occurrence, left to right; `""` changes nothing. */
  function RemoveAll(s: String, pat: String): (r: String)
    ensures |r| <= |s|
    decreases |s|
  {
    if pat == [] || |s| < |pat| then s
    else if s[..|pat|] == pat then RemoveAll(s[|pat|..], pat)
    else [s[0]] + RemoveAll(s[1..], pat)
  }

  /** Deletes every character of `cs` (`replace(/[...]/g, '')`, `str.replace(':', '')`). */
  function RemoveChars(s: String, cs: set<char>): (r: String)
    ensures |r| <= |s|
    ensures forall i :: 0 <= i < |r| ==> r[i] !in cs && r[i] in s
    ensures (forall i :: 0 <= i < |s| ==> s[i] !in cs) ==> r == s
    decreases |s|
  {
    if s == [] then []
    else (if s[0] in cs then [] else [s[0]]) + RemoveChars(s[1..], cs)
  }

  lemma {:induction false} RemoveCharsConcat(a: String, b: String, cs: set<char>)
    ensures RemoveChars(a + b, cs) == RemoveChars(a, cs) + RemoveChars(b, cs)
    decreases |a|
  {
    if a == [] {
      assert a + b == b;
    } else {
      assert (a + b)[1..] == a[1..] + b;
      RemoveCharsConcat(a[1..], b, cs);
      assert RemoveChars(a + b, cs) == (if a[0] in cs then [] else [a[0]]) + RemoveChars(a[1..] + b, cs);
    }
  }

  /** Text without whitespace is its own trim. */
  lemma TrimNoSpace(s: String)
    requires NoSpaceIn(s)
    ensures Trim(s) == s
  {
  }

  // ----------------------------------------------------------------------------------
  // Path components

  /** The text after the last `c` (all of `p` when there is none). */
  function AfterLast(p: String, c: char): (r: String)
    ensures c !in r && EndsWith(p, r)
    ensures c !in p ==> r == p
    ensures c in p ==> |r| < |p| && p[|p| - |r| - 1] == c
  {
    if p == [] then []
    else if p[|p| - 1] == c then []
    else AfterLast(p[..|p| - 1], c) + [p[|p| - 1]]
  }

  lemma {:induction false} AfterLastAppend(a: String, c: char, b: String)
    requires c !in b
    ensures AfterLast(a + [c] + b, c) == b
    decreases |b|
  {
    var p := a + [c] + b;
    if b == [] {
      assert p[|p| - 1] == c;
    } else {
      var init := b[..|b| - 1];
      assert p[..|p| - 1] == a + [c] + init;
      assert c !in init by {
        forall i | 0 <= i < |init| ensures init[i] != c {
          assert init[i] == b[i];
        }
      }
      AfterLastAppend(a, c, init);
      assert init + [b[|b| - 1]] == b;
    }
  }

  // ----------------------------------------------------------------------------------
  // Pattern search (`re.search`, `String.prototype.match` without `g`)

  /** The first position in `[i, n)` where the matcher `at` succeeds, or `n` when it never does. */
  function FirstMatch<U>(n: nat, i: nat, at: nat -> Option<U>): (k: nat)
    requires i <= n
    ensures i <= k <= n
    ensures k < n ==> at(k).Some?
    ensures forall j :: i <= j < k ==> at(j).None?
    decreases n - i
  {
    if i == n || at(i).Some? then i else FirstMatch(n, i + 1, at)
  }

  /** The leftmost match over the positions `[0, n)`. */
  function Search<U>(n: nat, at: nat -> Option<U>): Option<U>
  {
    var k := FirstMatch(n, 0, at);
    if k < n then at(k) else None
  }

  /** The end of the whitespace run (`\s*`) starting at `i`. */
  function SkipSpaces(s: String, i: nat): (j: nat)
    ensures i <= j && (i <= |s| ==> j <= |s|)
    ensures forall k :: i <= k < j ==> k < |s| && IsSpace(s[k])
    ensures j < |s| ==> !IsSpace(s[j])
    decreases |s| - i
  {
    if i < |s| && IsSpace(s[i]) then SkipSpaces(s, i + 1) else i
  }

  /** The end of the digit run (`\d*`) starting at `i`. */
  function DigitsEnd(s: String, i: nat): (j: nat)
    ensures i <= j && (i <= |s| ==> j <= |s|)
    ensures forall k :: i <= k < j ==> k < |s| && IsDigit(s[k])
    ensures j < |s| ==> !IsDigit(s[j])
    decreases |s| - i
  {
    if i < |s| && IsDigit(s[i]) then DigitsEnd(s, i + 1) else i
  }

  // ----------------------------------------------------------------------------------
  // Whitespace runs

  predicate NoDoubleSpace(s: String)
  {
    forall i :: 0 <= i < |s| - 1 ==> !(IsSpace(s[i]) && IsSpace(s[i + 1]))
  }

  /** `replace(/\s+/g, ' ')` / `re.sub(r'\s+', ' ', s)`: every whitespace run becomes one space. */
  function CollapseSpaces(s: String): (r: String)
    ensures |r| <= |s|
    ensures NoDoubleSpace(r)
    ensures forall i :: 0 <= i < |r| && IsSpace(r[i]) ==> r[i] == ' '
    ensures forall i :: 0 <= i < |r| && !IsSpace(r[i]) ==> r[i] in s
    ensures r == [] <==> s == []
    ensures r != [] ==> (IsSpace(r[0]) <==> IsSpace(s[0]))
    decreases |s|
  {
    if s == [] then []
    else if IsSpace(s[0]) then
      [' '] + CollapseSpaces(TrimStart(s))
    else
      [s[0]] + CollapseSpaces(s[1..])
  }

  /** The collapsed text ends in whitespace exactly when the original does. */
  lemma {:induction false} CollapseSpacesLast(s: String)
    ensures CollapseSpaces(s) != [] ==>
      (IsSpace(CollapseSpaces(s)[|CollapseSpaces(s)| - 1]) <==> IsSpace(s[|s| - 1]))
    decreases |s|
  {
    if s != [] {
      if IsSpace(s[0]) {
        var t := TrimStart(s);
        CollapseSpacesLast(t);
        if t != [] {
          assert t[|t| - 1] == s[|s| - 1];
        } else {
          assert IsSpace(s[|s| - 1]);
        }
      } else {
        CollapseSpacesLast(s[1..]);
        if s[1..] != [] {
          assert s[1..][|s[1..]| - 1] == s[|s| - 1];
        }
      }
    }
  }

  // ----------------------------------------------------------------------------------
  // Decimal numbers

  function DigitChar(d: nat): (c: char)
    requires d < 10
    ensures IsDigit(c)
  {
    ('0' as int + d) as char
  }

  function DigitValue(c: char): nat
    requires IsDigit(c)
  {
    c as int - '0' as int
  }

  /** Template-literal / f-string rendering of a natural number. */
  function NatToString(n: nat): (r: String)
    ensures |r| >= 1 && AllDigits(r)
    decreases n
  {
    if n < 10 then [DigitChar(n)] else NatToString(n / 10) + [DigitChar(n % 10)]
  }

  /** The value of a string of decimal digits (the empty string is 0). */
  function DigitsValue(s: String): nat
    requires AllDigits(s)
    decreases |s|
  {
    if s == [] then 0 else DigitsValue(s[..|s| - 1]) * 10 + DigitValue(s[|s| - 1])
  }

  lemma {:induction false} NatToStringRoundTrip(n: nat)
    ensures DigitsValue(NatToString(n)) == n
    decreases n
  {
    if n >= 10 {
      NatToStringRoundTrip(n / 10);
      var r := NatToString(n);
      assert r[..|r| - 1] == NatToString(n / 10);
    }
  }

  lemma NatToStringInjective(m: nat, n: nat)
    requires NatToString(m) == NatToString(n)
    ensures m == n
  {
    NatToStringRoundTrip(m);
    NatToStringRoundTrip(n);
  }

  /** The longest prefix of decimal digits. */
  function DigitPrefix(s: String): (r: String)
    ensures |r| <= |s| && r == s[..|r|] && AllDigits(r)
    ensures |r| == |s| || !IsDigit(s[|r|])
    decreases |s|
  {
    if s != [] && IsDigit(s[0]) then [s[0]] + DigitPrefix(s[1..]) else []
  }

  predicate IsHexDigit(c: char) { IsDigit(c) || 'a' <= c <= 'f' || 'A' <= c <= 'F' }

  function HexDigitValue(c: char): nat
    requires IsHexDigit(c)
  {
    if IsDigit(c) then DigitValue(c)
    else if 'a' <= c <= 'f' then c as int - 'a' as int + 10
    else c as int - 'A' as int + 10
  }

  predicate AllHexDigits(s: String) { forall i :: 0 <= i < |s| ==> IsHexDigit(s[i]) }

  /** The longest prefix of hexadecimal digits. */
  function HexDigitPrefix(s: String): (r: String)
    ensures |r| <= |s| && r == s[..|r|] && AllHexDigits(r)
    ensures |r| == |s| || !IsHexDigit(s[|r|])
    decreases |s|
  {
    if s != [] && IsHexDigit(s[0]) then [s[0]] + HexDigitPrefix(s[1..]) else []
  }

  /** The value of a string of hexadecimal digits (the empty string is 0). */
  function HexValue(s: String): nat
    requires AllHexDigits(s)
    decreases |s|
  {
    if s == [] then 0 else HexValue(s[..|s| - 1]) * 16 + HexDigitValue(s[|s| - 1])
  }

  /** Without a radix, `parseInt` reads a text starting with `0x` or `0X` as hexadecimal. */
  predicate HasHexPrefix(u: String) { |u| >= 2 && u[0] == '0' && (u[1] == 'x' || u[1] == 'X') }

  /** The digits `parseInt` reads: hexadecimal ones after a `0x` prefix, else decimal ones. */
  function RadixDigits(u: String): String
  {
    if HasHexPrefix(u) then HexDigitPrefix(u[2..]) else DigitPrefix(u)
  }

  /**
   * JavaScript `parseInt(s)` without a radix: leading whitespace, an optional sign, an
   * optional `0x`/`0X` prefix selecting base 16, then the longest prefix of digits of that
   * base; `None` stands for NaN (no digit at all).
   */
  function ParseInt(s: String): (r: Option<int>)
    ensures r.None? <==> RadixDigits(Unsigned(TrimStart(s))) == []
  {
    var t := TrimStart(s);
    var u := Unsigned(t);
    if RadixDigits(u) == [] then None
    else if HasHexPrefix(u) then Some(Sign(t) * HexValue(HexDigitPrefix(u[2..])))
    else Some(Sign(t) * DigitsValue(DigitPrefix(u)))
  }

  /** -1 after a leading minus sign, else 1. */
  function Sign(t: String): int
  {
    if t != [] && t[0] == '-' then -1 else 1
  }

  /** The text after an optional leading sign. */
  function Unsigned(t: String): String
  {
    if t != [] && (t[0] == '-' || t[0] == '+') then t[1..] else t
  }

  /** `parseInt` stops at the first character that is not a digit: `parseInt("2019a")` is 2019. */
  lemma ParseIntStopsAtNonDigit(d: String, t: String)
    requires d != [] && AllDigits(d) && (t == [] || !IsDigit(t[0])) && !HasHexPrefix(d + t)
    ensures ParseInt(d + t) == Some(DigitsValue(d))
  {
    var s := d + t;
    assert s[0] == d[0];
    StartsWithDigit(s);
    DigitPrefixConcat(d, t);
  }

  /** A text that starts with a digit has no leading space and no sign. */
  lemma StartsWithDigit(s: String)
    requires s != [] && IsDigit(s[0])
    ensures TrimStart(s) == s && Unsigned(s) == s && Sign(s) == 1
  {
    assert !IsSpace(s[0]);
    assert |TrimStart(s)| == |s|;
    assert s[0..] == s;
  }

  /** The digit prefix of a text of digits followed by a non-digit is those digits. */
  lemma {:induction false} DigitPrefixConcat(d: String, t: String)
    requires AllDigits(d) && (t == [] || !IsDigit(t[0]))
    ensures DigitPrefix(d + t) == d
    decreases |d|
  {
    if d != [] {
      DigitPrefixConcat(d[1..], t);
      assert (d + t)[1..] == d[1..] + t;
    } else {
      assert d + t == t;
    }
  }

  /** After `0x`, `parseInt` reads the hexadecimal digits that follow. */
  lemma ParseIntHexDigits(h: String, t: String)
    requires h != [] && AllHexDigits(h) && (t == [] || !IsHexDigit(t[0]))
    ensures ParseInt("0x" + h + t) == Some(HexValue(h))
  {
    var s := "0x" + h + t;
    assert s[0] == '0' && s[1] == 'x';
    assert TrimStart(s) == s by { assert !IsSpace(s[0]); }
    assert Unsigned(s) == s && HasHexPrefix(s);
    assert s[2..] == h + t;
    HexDigitPrefixConcat(h, t);
    assert RadixDigits(s) == h;
    assert Sign(s) == 1;
  }

  /** `0x` without a hexadecimal digit after it is NaN: `parseInt("0x")`, `parseInt("0xg")`. */
  lemma ParseIntHexNoDigits(t: String)
    requires t == [] || !IsHexDigit(t[0])
    ensures ParseInt("0x" + t).None?
  {
    var s := "0x" + t;
    assert s[0] == '0' && s[1] == 'x';
    assert TrimStart(s) == s by { assert !IsSpace(s[0]); }
    assert Unsigned(s) == s;
    assert s[2..] == t;
    assert HexDigitPrefix(t) == [];
    assert RadixDigits(s) == [];
  }

  /** The hexadecimal digit prefix of hexadecimal digits followed by a non-digit is those digits. */
  lemma {:induction false} HexDigitPrefixConcat(h: String, t: String)
    requires AllHexDigits(h) && (t == [] || !IsHexDigit(t[0]))
    ensures HexDigitPrefix(h + t) == h
    decreases |h|
  {
    if h != [] {
      HexDigitPrefixConcat(h[1..], t);
      assert (h + t)[1..] == h[1..] + t;
    } else {
      assert h + t == t;
    }
  }

  /** So a year written `0x7E3` is the year 2019. */
  lemma HexYear()
    ensures ParseInt("0x7E3") == Some(2019)
  {
    var h: String := ['7', 'E', '3'];
    HexYearDigits(h);
    ParseIntHexDigits(h, []);
    HexYearText(h);
  }

  lemma HexYearText(h: String)
    requires h == ['7', 'E', '3']
    ensures "0x" + h + [] == "0x7E3"
  {
  }

  lemma HexYearDigits(h: String)
    requires h == ['7', 'E', '3']
    ensures AllHexDigits(h) && HexValue(h) == 2019
  {
    var a: String := ['7'];
    var b: String := ['7', 'E'];
    HexValueSnoc([], '7');
    assert [] + ['7'] == a;
    HexValueSnoc(a, 'E');
    assert a + ['E'] == b;
    HexValueSnoc(b, '3');
    assert b + ['3'] == h;
    assert HexDigitValue('7') == 7 && HexDigitValue('E') == 14 && HexDigitValue('3') == 3;
  }

  /** One more hexadecimal digit multiplies the value by 16 and adds the digit. */
  lemma HexValueSnoc(s: String, c: char)
    requires AllHexDigits(s) && IsHexDigit(c)
    ensures AllHexDigits(s + [c]) && HexValue(s + [c]) == HexValue(s) * 16 + HexDigitValue(c)
  {
    assert (s + [c])[..|s|] == s;
  }

  lemma ParseIntNatToString(n: nat)
    ensures ParseInt(NatToString(n)) == Some(n)
  {
    var s := NatToString(n);
    assert !HasHexPrefix(s + []) by { assert s + [] == s; if |s| >= 2 { assert IsDigit(s[1]); } }
    ParseIntStopsAtNonDigit(s, []);
    assert s + [] == s;
    NatToStringRoundTrip(n);
  }
}
