/** The character-level pieces of the markdown parser: the character classes
    that decide where an element or a text block starts or ends, the search
    that marks the occurrences of a search string in an element's text from
    left to right (an occurrence overlapping an earlier marked one is skipped), the
    front-matter stripping of the current text, and the parser's iterator, a
    cursor over the text with peek, next, match and line-skipping operations.

    A text here is the content of the framework's string up to its
    terminator: reading at the end of the text, or at a NUL character, yields
    the character 0 and counts as the end. */
module Markdown {
  import opened Common

  // ---------------------------------------------------------------------
  // Character classes

  /** A character that can open a new markdown element: a header, table,
      image, quote or list marker, the end of the text or of a line, or a
      digit (numbered lists). */
  predicate IsNewElement(c: char)
  {
    c == '#' || c == '|' || c == '!' || c == '>' || c == '-' || c == '\0' || c == '\n' || IsDigit(c)
  }

  predicate IsEndOfLine(c: char)
  {
    c == '\r' || c == '\n' || c == '\0'
  }

  /** A character that ends a run of plain text: in code the back-tick and
      the line breaks, otherwise the table, quote and header markers. The
      digit '0' (not the terminator) ends a run in both modes. */
  predicate IsNewToken(c: char, isCode: bool)
  {
    if c == '0' then true
    else if isCode then c in "`\n\r"
    else c in "|>#"
  }

  predicate BelongsToTextBlock(c: char, isCode: bool, stopAtLineEnd: bool)
  {
    if stopAtLineEnd then !IsEndOfLine(c) else !IsNewToken(c, isCode)
  }

  /** Whatever mode a text block is read in, a character that ends it in
      running text, or a line feed or terminator that ends it at line ends,
      is one at which the parser can start a new element. */
  lemma TextBlockEndsAtElement(c: char, isCode: bool, stopAtLineEnd: bool)
    requires !BelongsToTextBlock(c, isCode, stopAtLineEnd)
    requires stopAtLineEnd || !isCode
    requires c != '\r'
    ensures IsNewElement(c)
  {
    if !stopAtLineEnd {
      assert c == '0' || c == '|' || c == '>' || c == '#';
    }
  }

  /** In code mode a table, quote or header marker does not end a text block,
      and the digit '0' ends a block unless it stops only at line ends. */
  lemma CodeKeepsMarkers(c: char, stopAtLineEnd: bool)
    requires c in "|>#"
    ensures BelongsToTextBlock(c, true, stopAtLineEnd)
    ensures !BelongsToTextBlock('0', true, false) && BelongsToTextBlock('0', true, true)
  {
  }

  // ---------------------------------------------------------------------
  // Search ranges

  /** sub occurs in text at position j. */
  predicate OccursAt(text: string, sub: string, j: int)
  {
    0 <= j && j + |sub| <= |text| && text[j..j + |sub|] == sub
  }

  /** A half-open range of positions in an element's text. */
  datatype Range = Range(start: int, end: int)

  /** s starts with prefix. */
  predicate StartsWith(s: string, prefix: string)
  {
    |prefix| <= |s| && s[..|prefix|] == prefix
  }

  /** The ranges the search produces from text position p on, when the
      counted index has reached index: an occurrence of the search string
      is recorded and skipped as a whole; any other character moves on by
      one, and moves the index too unless it is a line feed that is not
      counted. The search ends at the end of the text or at a NUL. */
  function RangesFrom(text: string, search: string, countNewLines: bool, p: nat, index: int): seq<Range>
    requires p <= |text| && |search| > 0
    decreases |text| - p
  {
    if p == |text| || text[p] == '\0' then []
    else if StartsWith(text[p..], search) then
      [Range(index, index + |search|)] + RangesFrom(text, search, countNewLines, p + |search|, index + |search|)
    else
      RangesFrom(text, search, countNewLines, p + 1, if countNewLines || text[p] != '\n' then index + 1 else index)
  }

  /** The ranges of all occurrences of search in text; a search string of one
      character or none finds nothing. */
  function MatchRanges(text: string, search: string, countNewLines: bool): seq<Range>
  {
    if |search| <= 1 then [] else RangesFrom(text, search, countNewLines, 0, 0)
  }

  /** Every range has the given length and lies within [lo, hi), and each
      one ends before the next one starts. */
  predicate WellSpaced(r: seq<Range>, length: nat, lo: int, hi: int)
  {
    && (forall i :: 0 <= i < |r| ==> r[i].end - r[i].start == length)
    && (forall i :: 0 <= i < |r| ==> lo <= r[i].start && r[i].end <= hi)
    && (forall i, j :: 0 <= i < j < |r| ==> r[i].end <= r[j].start)
  }

  lemma WellSpacedWiden(r: seq<Range>, length: nat, lo: int, hi: int, lo': int, hi': int)
    requires WellSpaced(r, length, lo, hi) && lo' <= lo && hi <= hi'
    ensures WellSpaced(r, length, lo', hi')
  {
  }

  lemma WellSpacedCons(x: Range, rest: seq<Range>, length: nat, lo: int, hi: int)
    requires x.end - x.start == length && lo <= x.start
    requires WellSpaced(rest, length, x.end, hi) && x.end <= hi
    ensures WellSpaced([x] + rest, length, lo, hi)
  {
    var r := [x] + rest;
    assert forall i :: 1 <= i < |r| ==> r[i] == rest[i - 1];
  }

  /** An occurrence at p is recorded, then the search goes on after it. */
  lemma ShapeAfterMatch(text: string, search: string, countNewLines: bool, p: nat, index: int)
    requires p < |text| && text[p] != '\0' && |search| > 0 && StartsWith(text[p..], search)
    requires WellSpaced(RangesFrom(text, search, countNewLines, p + |search|, index + |search|),
                        |search|, index + |search|, index + (|text| - p))
    ensures WellSpaced(RangesFrom(text, search, countNewLines, p, index), |search|, index, index + (|text| - p))
  {
    var rest := RangesFrom(text, search, countNewLines, p + |search|, index + |search|);
    assert RangesFrom(text, search, countNewLines, p, index) == [Range(index, index + |search|)] + rest;
    WellSpacedCons(Range(index, index + |search|), rest, |search|, index, index + (|text| - p));
  }

  /** Any other character is stepped over, moving the index by at most one. */
  lemma ShapeAfterSkip(text: string, search: string, countNewLines: bool, p: nat, index: int)
    requires p < |text| && text[p] != '\0' && |search| > 0 && !StartsWith(text[p..], search)
    requires var next := if countNewLines || text[p] != '\n' then index + 1 else index;
      WellSpaced(RangesFrom(text, search, countNewLines, p + 1, next), |search|, next, next + (|text| - (p + 1)))
    ensures WellSpaced(RangesFrom(text, search, countNewLines, p, index), |search|, index, index + (|text| - p))
  {
    var next := if countNewLines || text[p] != '\n' then index + 1 else index;
    assert RangesFrom(text, search, countNewLines, p, index) == RangesFrom(text, search, countNewLines, p + 1, next);
    WellSpacedWiden(RangesFrom(text, search, countNewLines, p + 1, next), |search|,
      next, next + (|text| - (p + 1)), index, index + (|text| - p));
  }

  /** The ranges found from position p on each have the search string's
      length, start at the current index or later, end no further than the
      rest of the text reaches, and follow each other without overlap. */
  lemma {:induction false} RangesFromShape(text: string, search: string, countNewLines: bool, p: nat, index: int)
    requires p <= |text| && |search| > 0
    ensures WellSpaced(RangesFrom(text, search, countNewLines, p, index), |search|, index, index + (|text| - p))
    decreases |text| - p
  {
    if p == |text| || text[p] == '\0' {
    } else if StartsWith(text[p..], search) {
      RangesFromShape(text, search, countNewLines, p + |search|, index + |search|);
      ShapeAfterMatch(text, search, countNewLines, p, index);
    } else {
      var next := if countNewLines || text[p] != '\n' then index + 1 else index;
      RangesFromShape(text, search, countNewLines, p + 1, next);
      ShapeAfterSkip(text, search, countNewLines, p, index);
    }
  }

  /** Every range covers an occurrence of sub in text. */
  predicate CoversOccurrences(r: seq<Range>, text: string, sub: string)
  {
    forall i :: 0 <= i < |r| ==> OccursAt(text, sub, r[i].start) && r[i].end == r[i].start + |sub|
  }

  /** With line feeds counted, every range found from p on covers an
      occurrence of the search string in the text itself. */
  lemma {:induction false} RangesFromFound(text: string, search: string, p: nat)
    requires p <= |text| && |search| > 0
    ensures CoversOccurrences(RangesFrom(text, search, true, p, p), text, search)
    decreases |text| - p
  {
    if p == |text| || text[p] == '\0' {
    } else if StartsWith(text[p..], search) {
      var rest := RangesFrom(text, search, true, p + |search|, p + |search|);
      RangesFromFound(text, search, p + |search|);
      assert text[p..p + |search|] == text[p..][..|search|];
      var r := [Range(p, p + |search|)] + rest;
      assert forall i :: 1 <= i < |r| ==> r[i] == rest[i - 1];
    } else {
      RangesFromFound(text, search, p + 1);
    }
  }

  /** When the text has no line feed, not counting line feeds changes nothing. */
  lemma {:induction false} RangesIgnoreAbsentNewLines(text: string, search: string, p: nat, index: int)
    requires p <= |text| && |search| > 0
    requires forall k :: p <= k < |text| ==> text[k] != '\n'
    ensures RangesFrom(text, search, false, p, index) == RangesFrom(text, search, true, p, index)
    decreases |text| - p
  {
    if p == |text| || text[p] == '\0' {
    } else if StartsWith(text[p..], search) {
      RangesIgnoreAbsentNewLines(text, search, p + |search|, index + |search|);
    } else {
      RangesIgnoreAbsentNewLines(text, search, p + 1, index + 1);
    }
  }

  /** search occurs at j: the occurrence starts where the rest of the text
      starts with search. */
  lemma OccursStarts(text: string, search: string, j: nat)
    requires OccursAt(text, search, j)
    ensures j < |text| || |search| == 0
    ensures StartsWith(text[j..], search)
  {
    assert text[j..][..|search|] == text[j..j + |search|];
  }

  /** Position j is the start of a range of r or lies inside one. */
  predicate Marked(r: seq<Range>, j: int)
  {
    exists i :: 0 <= i < |r| && r[i].start <= j < r[i].end
  }

  /** No NUL ends the text at or before position j. */
  predicate NoNulThrough(text: string, j: int)
  {
    j < |text| && forall k :: 0 <= k <= j ==> text[k] != '\0'
  }

  /** With line feeds counted, an occurrence at j, reached from p before any
      NUL, is marked itself, or lies inside an earlier occurrence that was
      marked: the search takes the leftmost occurrence and jumps past it. */
  lemma {:induction false} RangesFromComplete(text: string, search: string, p: nat, j: nat)
    requires p <= j && |search| > 0 && OccursAt(text, search, j) && NoNulThrough(text, j)
    ensures Marked(RangesFrom(text, search, true, p, p), j)
    decreases |text| - p
  {
    var r := RangesFrom(text, search, true, p, p);
    assert text[p] != '\0';
    if StartsWith(text[p..], search) {
      var rest := RangesFrom(text, search, true, p + |search|, p + |search|);
      assert r == [Range(p, p + |search|)] + rest;
      if j < p + |search| {
        assert r[0].start <= j < r[0].end;
      } else {
        RangesFromComplete(text, search, p + |search|, j);
        var i :| 0 <= i < |rest| && rest[i].start <= j < rest[i].end;
        assert r[i + 1] == rest[i];
      }
    } else {
      OccursStarts(text, search, j);
      RangesFromComplete(text, search, p + 1, j);
    }
  }

  /** The search visits the same positions whether or not line feeds are
      counted, so both modes find the same number of ranges. */
  lemma {:induction false} RangesCountAlike(text: string, search: string, p: nat, index1: int, index2: int)
    requires p <= |text| && |search| > 0
    ensures |RangesFrom(text, search, false, p, index1)| == |RangesFrom(text, search, true, p, index2)|
    decreases |text| - p
  {
    if p == |text| || text[p] == '\0' {
    } else if StartsWith(text[p..], search) {
      RangesCountAlike(text, search, p + |search|, index1 + |search|, index2 + |search|);
    } else {
      RangesCountAlike(text, search, p + 1, if text[p] != '\n' then index1 + 1 else index1, index2 + 1);
    }
  }

  /** Line feeds before position x, the amount an uncounted index falls
      behind the position. */
  function LineFeedsBefore(text: string, x: int): (n: nat)
    requires 0 <= x <= |text|
    ensures n <= x && n == multiset(text[..x])['\n']
  {
    CountChar(text[..x], '\n')
  }

  /** When the search string holds no line feed, an uncounted search from p
      gives the counted ranges, each moved back by the line feeds before its
      start. */
  lemma {:induction false} RangesFromUncounted(text: string, search: string, p: nat, index: int)
    requires p <= |text| && |search| > 0 && '\n' !in search
    requires index == p - LineFeedsBefore(text, p)
    ensures var a := RangesFrom(text, search, false, p, index);
      var b := RangesFrom(text, search, true, p, p);
      |a| == |b| && forall i :: 0 <= i < |a| ==>
        0 <= b[i].start <= |text|
        && a[i].start == b[i].start - LineFeedsBefore(text, b[i].start)
        && a[i].end == a[i].start + |search|
    decreases |text| - p
  {
    var a := RangesFrom(text, search, false, p, index);
    var b := RangesFrom(text, search, true, p, p);
    if p == |text| || text[p] == '\0' {
    } else if StartsWith(text[p..], search) {
      var q := p + |search|;
      assert text[..q] == text[..p] + search;
      assert multiset(search)['\n'] == 0;
      RangesFromUncounted(text, search, q, index + |search|);
      var a' := RangesFrom(text, search, false, q, index + |search|);
      var b' := RangesFrom(text, search, true, q, q);
      assert a == [Range(index, index + |search|)] + a';
      assert b == [Range(p, q)] + b';
      forall i | 1 <= i < |a| ensures a[i] == a'[i - 1] && b[i] == b'[i - 1] {
      }
    } else {
      assert text[..p + 1] == text[..p] + [text[p]];
      RangesFromUncounted(text, search, p + 1, if text[p] != '\n' then index + 1 else index);
    }
  }

  /** The search results as a whole: non-overlapping, in increasing order,
      each as long as the search string, and nothing for a search string
      shorter than two. With line feeds counted, each range is an occurrence
      and every occurrence before the terminator starts a range or lies
      inside an earlier marked one. Without them, which is how the search box
      uses it, there are as many ranges, and for a search string without line feeds each
      starts where the counted one does, less the line feeds before it. */
  lemma MatchRangesProperties(text: string, search: string, countNewLines: bool)
    ensures |search| <= 1 ==> MatchRanges(text, search, countNewLines) == []
    ensures WellSpaced(MatchRanges(text, search, countNewLines), |search|, 0, |text|)
    ensures countNewLines ==> CoversOccurrences(MatchRanges(text, search, countNewLines), text, search)
    ensures countNewLines && |search| > 1 ==>
      forall j :: OccursAt(text, search, j) && NoNulThrough(text, j) ==>
        Marked(MatchRanges(text, search, countNewLines), j)
    ensures |MatchRanges(text, search, false)| == |MatchRanges(text, search, true)|
    ensures '\n' !in search ==>
      var a := MatchRanges(text, search, false);
      var b := MatchRanges(text, search, true);
      forall i :: 0 <= i < |a| ==>
        0 <= b[i].start <= |text|
        && a[i].start == b[i].start - LineFeedsBefore(text, b[i].start)
        && a[i].end == a[i].start + |search|
  {
    if |search| > 1 {
      RangesFromShape(text, search, countNewLines, 0, 0);
      RangesFromFound(text, search, 0);
      RangesCountAlike(text, search, 0, 0, 0);
      if '\n' !in search {
        RangesFromUncounted(text, search, 0, 0);
      }
      if countNewLines {
        forall j | OccursAt(text, search, j) && NoNulThrough(text, j)
          ensures Marked(MatchRanges(text, search, countNewLines), j)
        {
          RangesFromComplete(text, search, 0, j);
        }
      }
    }
  }

  /** Element::getMatchRanges: walks the text with a pointer and an index,
      appending a range for each occurrence of the search string. */
  method GetMatchRanges(fullText: string, searchString: string, countNewLines: bool) returns (ranges: seq<Range>)
    ensures ranges == MatchRanges(fullText, searchString, countNewLines)
  {
    var length := |searchString|;
    if length <= 1 {
      return [];
    }
    var index := 0;
    var c := 0;
    ranges := [];
    while c < |fullText| && fullText[c] != '\0'
      invariant c <= |fullText|
      invariant ranges + RangesFrom(fullText, searchString, countNewLines, c, index)
        == RangesFrom(fullText, searchString, countNewLines, 0, 0)
      decreases |fullText| - c
    {
      if StartsWith(fullText[c..], searchString) {
        ranges := ranges + [Range(index, index + length)];
        c := c + length;
        index := index + length;
        continue;
      }
      if countNewLines || fullText[c] != '\n' {
        index := index + 1;
      }
      c := c + 1;
    }
  }

  // ---------------------------------------------------------------------
  // Current text

  /** The last position below n at which sub occurs in text. */
  function LastIndexBelow(text: string, sub: string, n: nat): (r: Option<nat>)
    ensures r.Some? ==> r.value < n && OccursAt(text, sub, r.value)
    ensures forall j :: (if r.Some? then r.value + 1 else 0) <= j < n ==> !OccursAt(text, sub, j)
  {
    if n == 0 then None
    else if OccursAt(text, sub, n - 1) then Some(n - 1)
    else LastIndexBelow(text, sub, n - 1)
  }

  /** The separator that closes the front-matter header. */
  const HeaderEnd := "---\n"

  /** What follows an occurrence of the separator that has no later one
      holds no separator either. */
  lemma AfterLastSeparator(text: string, i: nat)
    requires OccursAt(text, HeaderEnd, i)
    requires forall j :: i + 1 <= j < |text| + 1 ==> !OccursAt(text, HeaderEnd, j)
    ensures var r := text[i + 4..]; forall j :: !OccursAt(r, HeaderEnd, j)
  {
    var r := text[i + 4..];
    forall j | OccursAt(r, HeaderEnd, j)
      ensures false
    {
      assert r[j..j + 4] == text[i + 4 + j..i + 4 + j + 4];
      assert OccursAt(text, HeaderEnd, i + 4 + j);
    }
  }

  /** MarkdownParser::getCurrentText: the whole text, or only what follows
      the last header separator (the whole text when there is none). */
  function CurrentText(markdownCode: string, includeMarkdownHeader: bool): (r: string)
    ensures includeMarkdownHeader ==> r == markdownCode
    ensures |r| <= |markdownCode| && r == markdownCode[|markdownCode| - |r|..]
    ensures !includeMarkdownHeader ==> forall j :: !OccursAt(r, HeaderEnd, j)
    ensures !includeMarkdownHeader && r != markdownCode ==>
      OccursAt(markdownCode, HeaderEnd, |markdownCode| - |r| - 4)
  {
    if includeMarkdownHeader then markdownCode
    else
      match LastIndexBelow(markdownCode, HeaderEnd, |markdownCode| + 1)
      case None => markdownCode
      case Some(i) =>
        AfterLastSeparator(markdownCode, i);
        markdownCode[i + 4..]
  }

  // ---------------------------------------------------------------------
  // Iterator

  /** The line a position lies on: one more than the line feeds before it. */
  function LineNumber(text: string, pos: nat): (n: nat)
    requires pos <= |text|
    ensures 1 <= n <= pos + 1
  {
    1 + CountChar(text[..pos], '\n')
  }

  /** Where an excerpt starting at p ends: after at most budget characters,
      at the end of the text, or before a NUL. */
  function ExcerptEnd(text: string, p: nat, budget: nat): (e: nat)
    requires p <= |text|
    ensures p <= e <= |text| && e - p <= budget
    ensures forall k :: p <= k < e ==> text[k] != '\0'
    ensures e - p == budget || e == |text| || text[e] == '\0'
    decreases budget
  {
    if budget == 0 || p == |text| || text[p] == '\0' then p else ExcerptEnd(text, p + 1, budget - 1)
  }

  /** The message match() throws on a mismatch. */
  function MatchError(line: nat, excerpt: string, expected: char, actual: char): string
  {
    "Line " + NatToString(line) + " - Error at '" + excerpt + "': Expected: " + [expected] + ", Actual: " + [actual]
  }

  /** The error match() reports when it has just read the character actual
      and the cursor stands at pos: the line of the cursor and up to twenty
      characters of the text from the cursor on. */
  function MismatchAt(text: string, pos: nat, expected: char, actual: char): string
    requires pos <= |text|
  {
    MatchError(LineNumber(text, pos), text[pos..ExcerptEnd(text, pos, 20)], expected, actual)
  }

  /** The error-building part of match(): counts the lines up to the cursor
      and copies the excerpt after it. */
  method BuildMatchError(text: string, pos: nat, expected: char, actual: char) returns (s: string)
    requires pos <= |text|
    ensures s == MismatchAt(text, pos, expected, actual)
  {
    var lineNumber := 1;
    var lineCounter := 0;
    while lineCounter != pos
      invariant lineCounter <= pos
      invariant lineNumber == 1 + CountChar(text[..lineCounter], '\n')
    {
      assert text[..lineCounter + 1] == text[..lineCounter] + [text[lineCounter]];
      if text[lineCounter] == '\n' {
        lineNumber := lineNumber + 1;
      }
      lineCounter := lineCounter + 1;
    }
    var copy := pos;
    var i := 20;
    while copy < |text| && text[copy] != '\0' && i > 0
      invariant pos <= copy <= |text| && i <= 20 && copy - pos + i == 20
      invariant ExcerptEnd(text, copy, i) == ExcerptEnd(text, pos, 20)
    {
      copy := copy + 1;
      i := i - 1;
    }
    s := MatchError(lineNumber, text[pos..copy], expected, actual);
  }

  /** The line read from p: up to and including the first line feed, or up
      to the end of the text. */
  function LineEnd(text: string, p: nat): (e: nat)
    requires p <= |text|
    ensures p <= e <= |text|
    ensures forall k :: p <= k < e ==> text[k] != '\0'
    ensures forall k :: p <= k < e - 1 ==> text[k] != '\n'
    ensures e == |text| || text[e] == '\0' || (p < e && text[e - 1] == '\n')
    decreases |text| - p
  {
    if p == |text| || text[p] == '\0' then p
    else if text[p] == '\n' then p + 1
    else LineEnd(text, p + 1)
  }

  /** MarkdownParser::Iterator: a cursor into the text it was made from. */
  class Iterator {
    const text: string
    var pos: nat

    ghost predicate Valid()
      reads this
    {
      pos <= |text|
    }

    /** The cursor reads the terminator. */
    predicate AtEnd()
      reads this
      requires Valid()
    {
      pos == |text| || text[pos] == '\0'
    }

    constructor (text: string)
      ensures Valid() && this.text == text && pos == 0
    {
      this.text := text;
      pos := 0;
    }

    /** The character under the cursor, 0 at the end; the cursor stays. */
    function Peek(): (c: char)
      reads this
      requires Valid()
      ensures c == '\0' <==> AtEnd()
      ensures !AtEnd() ==> c == text[pos]
    {
      if pos == |text| then '\0' else text[pos]
    }

    /** Skips numChars characters unless the cursor is at the end already;
        tells whether the cursor is then not at the end. */
    method AdvanceIfNotEOF(numChars: int) returns (more: bool)
      requires Valid()
      requires !AtEnd() ==> 0 <= pos + numChars <= |text|
      modifies this
      ensures Valid()
      ensures pos == if old(AtEnd()) then old(pos) else old(pos) + numChars
      ensures more <==> !old(AtEnd()) && !AtEnd()
    {
      if AtEnd() {
        return false;
      }
      pos := pos + numChars;
      more := !AtEnd();
    }

    /** Skips numChars characters; tells whether the cursor is then not at
        the end. */
    method Advance(numChars: int) returns (more: bool)
      requires Valid()
      requires 0 <= pos + numChars <= |text|
      modifies this
      ensures Valid() && pos == old(pos) + numChars
      ensures more <==> !AtEnd()
    {
      pos := pos + numChars;
      more := !AtEnd();
    }

    /** Skips as many characters as a given string has. */
    method AdvanceString(stringToSkip: string) returns (more: bool)
      requires Valid()
      requires pos + |stringToSkip| <= |text|
      modifies this
      ensures Valid() && pos == old(pos) + |stringToSkip|
      ensures more <==> !AtEnd()
    {
      more := Advance(|stringToSkip|);
    }

    /** Reads one character. At the end nothing moves, the result is false
        and the character read is 0; otherwise exactly one character is
        consumed and the result tells that it is not the terminator. */
    method Next() returns (more: bool, c: char)
      requires Valid()
      modifies this
      ensures Valid()
      ensures old(AtEnd()) ==> !more && c == '\0' && pos == old(pos)
      ensures !old(AtEnd()) ==> more && c == text[old(pos)] && pos == old(pos) + 1
    {
      if AtEnd() {
        return false, '\0';
      }
      c := text[pos];
      pos := pos + 1;
      more := c != '\0';
    }

    /** Consumes one character and checks it: at the end the result is
        false, a different character is an error naming the line and the
        text after it, the expected one gives true. */
    method Match(expected: char) returns (r: Result<bool>)
      requires Valid()
      modifies this
      ensures Valid()
      ensures old(AtEnd()) ==> r == Success(false) && pos == old(pos)
      ensures !old(AtEnd()) ==> pos == old(pos) + 1
      ensures !old(AtEnd()) && text[old(pos)] == expected ==> r == Success(true)
      ensures !old(AtEnd()) && text[old(pos)] != expected ==>
        r == Failure(MismatchAt(text, pos, expected, text[old(pos)]))
    {
      var more, c := Next();
      if !more {
        return Success(false);
      }
      if c != expected {
        var s := BuildMatchError(text, pos, expected, c);
        return Failure(s);
      }
      r := Success(c == expected);
    }

    /** Consumes the next character exactly when it is the expected one. */
    method MatchIf(expected: char) returns (r: bool)
      requires Valid()
      modifies this
      ensures Valid()
      ensures r <==> !old(AtEnd()) && text[old(pos)] == expected
      ensures pos == if r then old(pos) + 1 else old(pos)
    {
      if Peek() == expected {
        var c: char;
        r, c := Next();
      } else {
        r := false;
      }
    }

    /** Moves the cursor over the whitespace in front of it. */
    method SkipWhitespace()
      requires Valid()
      modifies this
      ensures Valid()
      ensures pos == old(pos) + LeadingWhitespace(text[old(pos)..])
    {
      while IsWhitespace(Peek())
        invariant Valid() && old(pos) <= pos
        invariant LeadingWhitespace(text[old(pos)..]) == (pos - old(pos)) + LeadingWhitespace(text[pos..])
        decreases |text| - pos
      {
        assert text[pos..][1..] == text[pos + 1..];
        var more, c := Next();
        if !more {
          break;
        }
      }
    }

    /** Reads the rest of the current line, the line feed included. */
    method AdvanceLine() returns (s: string)
      requires Valid()
      modifies this
      ensures Valid()
      ensures pos == LineEnd(text, old(pos))
      ensures s == text[old(pos)..pos]
    {
      s := [];
      var more, c := Next();
      if !more {
        return;
      }
      while c != '\0' && c != '\n'
        invariant Valid() && old(pos) < pos
        invariant c == text[pos - 1] && c != '\0' && s == text[old(pos)..pos - 1]
        invariant LineEnd(text, old(pos)) == LineEnd(text, pos - 1)
        decreases |text| - pos
      {
        s := s + [c];
        more, c := Next();
        if !more {
          assert LineEnd(text, pos - 1) == LineEnd(text, pos) == pos;
          break;
        }
      }
      if c == '\n' {
        s := s + [c];
        assert LineEnd(text, pos - 1) == pos;
      }
    }
  }
}
