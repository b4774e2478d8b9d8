/** Tag-position arithmetic over a buffer held as its sequence of lines: locating the closing
    tag of an element, telling self-closing tags apart, and growing a raw `<name` match into
    the span of the whole opening tag. Lines are 0-based in the sequence; every `Position`
    and `Range` is 1-based, as in the editor. */
module Tags {
  import opened Strings

  /** A caret location: 1-based line and column. */
  datatype Position = Position(lineNumber: int, column: int)

  /** A span of text; `endColumn` is one past the last character it covers. */
  datatype Range = Range(startLineNumber: int, startColumn: int, endLineNumber: int, endColumn: int)

  /** The ways a tag operation fails. `LineOutOfRange` is only raised by the code as written,
      when it asks the buffer for a line past its end. */
  datatype TagError = MalformedTag | UnmatchedClosingTag | LineOutOfRange

  datatype Result<T> = Ok(value: T) | Err(error: TagError)

  /** The closing tag text `</name>`. */
  function EndTag(tagName: string): (t: string)
    ensures |t| == |tagName| + 3 && t[0] == '<' && t[1] == '/' && t[|t| - 1] == '>'
    ensures t[2..|t| - 1] == tagName
  {
    "</" + tagName + ">"
  }

  // ---------------------------------------------------------------------------------------
  // Closing-tag locator

  /** No line with 0-based index in [from, to) contains `pat`. */
  ghost predicate AbsentFrom(lines: seq<string>, pat: string, from: int, to: int)
  {
    forall l :: from <= l < to && 0 <= l < |lines| ==> !Occurs(lines[l], pat)
  }

  /** `line` holds `pat` first at index `i` among the indices from `from` on. */
  ghost predicate FirstMatchFrom(line: string, pat: string, from: int, i: int)
  {
    from <= i && MatchAt(line, pat, i) && forall k :: from <= k < i ==> !MatchAt(line, pat, k)
  }

  /** `line` holds `pat` nowhere from `from` on. */
  ghost predicate NoMatchFrom(line: string, pat: string, from: int)
  {
    forall k :: from <= k ==> !MatchAt(line, pat, k)
  }

  /** `p` is where the first `endTag` found by a scan of whole lines that starts at 0-based
      line `from` ends: its line holds `endTag` first at index `column - |endTag| - 1`, and no
      line scanned before it holds `endTag` at all. */
  ghost predicate ClosingTagAt(lines: seq<string>, endTag: string, from: int, p: Position)
  {
    var l := p.lineNumber - 1;
    var i := p.column - |endTag| - 1;
    && 0 <= from <= l < |lines|
    && FirstMatchFrom(lines[l], endTag, 0, i)
    && AbsentFrom(lines, endTag, from, l)
  }

  /** A scan has at most one answer. */
  lemma ClosingTagAtUnique(lines: seq<string>, endTag: string, from: int, p: Position, q: Position)
    requires ClosingTagAt(lines, endTag, from, p) && ClosingTagAt(lines, endTag, from, q)
    ensures p == q
  {
  }

  /** `p` is where the closing tag of the element whose opening tag spans `open` ends: the
      first `endTag` after the opening tag, on its own end line from its end column, or else
      on the following lines. */
  ghost predicate ClosingTagAfter(lines: seq<string>, endTag: string, open: Range, p: Position)
    requires Expandable(open, lines)
  {
    var line := lines[open.endLineNumber - 1];
    || (p.lineNumber == open.endLineNumber && FirstMatchFrom(line, endTag, open.endColumn - 1, p.column - |endTag| - 1))
    || (NoMatchFrom(line, endTag, open.endColumn - 1) && ClosingTagAt(lines, endTag, open.endLineNumber, p))
  }

  /** `IndexOf` on one line finds exactly the first match from its start index. */
  lemma IndexOfMeaning(line: string, pat: string, from: nat)
    requires from <= |line|
    ensures var j := IndexOf(line, pat, from);
      && (j == -1 <==> NoMatchFrom(line, pat, from))
      && (j != -1 ==> FirstMatchFrom(line, pat, from, j))
  {
  }

  /** `getEndOfTag`, corrected: the position just past the first `</name>` after the opening
      tag that spans `tagRange`, looked for first on the opening tag's own end line (after its
      end) and then on the lines below. A buffer without one gives `UnmatchedClosingTag`. */
  method GetEndOfTag(tagName: string, tagRange: Range, lines: seq<string>) returns (r: Result<Position>)
    requires Expandable(tagRange, lines)
    ensures r.Err? <==>
      && NoMatchFrom(lines[tagRange.endLineNumber - 1], EndTag(tagName), tagRange.endColumn - 1)
      && AbsentFrom(lines, EndTag(tagName), tagRange.endLineNumber, |lines|)
    ensures r.Err? ==> r.error == UnmatchedClosingTag
    ensures r.Ok? ==> ClosingTagAfter(lines, EndTag(tagName), tagRange, r.value)
  {
    var endTag := EndTag(tagName);
    var l := tagRange.endLineNumber - 1;
    IndexOfMeaning(lines[l], endTag, tagRange.endColumn - 1);
    var endTagCol := IndexOf(lines[l], endTag, tagRange.endColumn - 1);
    if endTagCol > -1 {
      return Ok(Position(l + 1, endTagCol + |endTag| + 1));
    }
    l := l + 1;
    while l < |lines|
      invariant tagRange.endLineNumber <= l
      invariant AbsentFrom(lines, endTag, tagRange.endLineNumber, l)
      decreases |lines| - l
    {
      endTagCol := IndexOf(lines[l], endTag, 0);
      if endTagCol > -1 {
        r := Ok(Position(l + 1, endTagCol + |endTag| + 1));
        assert Occurs(lines[l], endTag) by { assert MatchAt(lines[l], endTag, endTagCol); }
        return;
      }
      l := l + 1;
    }
    r := Err(UnmatchedClosingTag);
  }

  /** The corrected locator has at most one answer. */
  lemma ClosingTagAfterUnique(lines: seq<string>, endTag: string, open: Range, p: Position, q: Position)
    requires Expandable(open, lines)
    requires ClosingTagAfter(lines, endTag, open, p) && ClosingTagAfter(lines, endTag, open, q)
    ensures p == q
  {
    var line := lines[open.endLineNumber - 1];
    var c := open.endColumn - 1;
    if FirstMatchFrom(line, endTag, c, p.column - |endTag| - 1) && p.lineNumber == open.endLineNumber {
      assert !NoMatchFrom(line, endTag, c);
    } else {
      assert !FirstMatchFrom(line, endTag, c, q.column - |endTag| - 1) || q.lineNumber != open.endLineNumber;
      ClosingTagAtUnique(lines, endTag, open.endLineNumber, p, q);
    }
  }

  /** The scan of `getEndOfTag` as the code runs it, from 0-based line `l`: when the buffer
      runs out it yields line `l + 1` and column `-1 + |endTag| + 1` instead of failing. */
  function ScanAsWritten(lines: seq<string>, endTag: string, l: nat): Position
    decreases |lines| - l
  {
    if l < |lines| then
      var endTagCol := IndexOf(lines[l], endTag, 0);
      if endTagCol > -1 then Position(l + 1, endTagCol + |endTag| + 1)
      else ScanAsWritten(lines, endTag, l + 1)
    else Position(l + 1, -1 + |endTag| + 1)
  }

  /** `getEndOfTag` as written: the scan starts at 0-based line `EndLineNumber`, the line
      after the one the opening tag ends on, and a miss yields the sentinel. */
  function GetEndOfTagAsWritten(tagName: string, tagRange: Range, lines: seq<string>): Position
    requires 0 <= tagRange.endLineNumber
  {
    ScanAsWritten(lines, EndTag(tagName), tagRange.endLineNumber)
  }

  lemma {:induction false} ScanAsWrittenMeaning(lines: seq<string>, endTag: string, l: nat)
    ensures var p := ScanAsWritten(lines, endTag, l);
      if AbsentFrom(lines, endTag, l, |lines|)
      then p == Position(if l < |lines| then |lines| + 1 else l + 1, |endTag|)
      else ClosingTagAt(lines, endTag, l, p)
    decreases |lines| - l
  {
    if l < |lines| {
      var endTagCol := IndexOf(lines[l], endTag, 0);
      if endTagCol > -1 {
        assert MatchAt(lines[l], endTag, endTagCol);
      } else {
        ScanAsWrittenMeaning(lines, endTag, l + 1);
      }
    }
  }

  /** The position `getEndOfTag` returns tells its two outcomes apart: it lies inside the
      buffer exactly when some line from the scan's start holds the closing tag, and then it
      is the end of the first one; otherwise it is the sentinel line `lines.Count + 1` (or
      the line after the scan's start, when that start is already past the end) with column
      `|endTag|`. Where the opening tag's own line holds no closing tag after it, the first
      outcome is the answer of the corrected locator. */
  lemma GetEndOfTagSentinel(tagName: string, tagRange: Range, lines: seq<string>)
    requires 0 <= tagRange.endLineNumber
    ensures var p := GetEndOfTagAsWritten(tagName, tagRange, lines);
      var endTag := EndTag(tagName);
      && (p.lineNumber <= |lines| <==> !AbsentFrom(lines, endTag, tagRange.endLineNumber, |lines|))
      && (p.lineNumber <= |lines| ==> ClosingTagAt(lines, endTag, tagRange.endLineNumber, p))
      && (p.lineNumber <= |lines| && Expandable(tagRange, lines)
            && NoMatchFrom(lines[tagRange.endLineNumber - 1], endTag, tagRange.endColumn - 1) ==>
            ClosingTagAfter(lines, endTag, tagRange, p))
      && (p.lineNumber > |lines| ==>
            p == Position(if tagRange.endLineNumber < |lines| then |lines| + 1 else tagRange.endLineNumber + 1,
                          |endTag|))
  {
    ScanAsWrittenMeaning(lines, EndTag(tagName), tagRange.endLineNumber);
  }

  /** A two-line buffer whose opening `<note>` is never closed: the code reports a closing
      tag at line 3, column 7, a line the buffer does not have. */
  lemma GetEndOfTagAsWrittenUnclosed()
    ensures var lines := ["<note>", "text"];
      && AbsentFrom(lines, EndTag("note"), 1, |lines|)
      && NoMatchFrom(lines[0], EndTag("note"), 6)
      && GetEndOfTagAsWritten("note", Range(1, 1, 1, 7), lines) == Position(3, 7)
  {
    var lines := ["<note>", "text"];
    GetEndOfTagSentinel("note", Range(1, 1, 1, 7), lines);
    assert !Occurs(lines[1], EndTag("note")) by {
      forall k ensures !MatchAt(lines[1], EndTag("note"), k) {
      }
    }
  }

  /** Two one-line `<note>` elements: for the first, the code skips the opening tag's own
      line and reports the end of the second element's `</note>`, at line 2, column 15;
      the corrected locator reports line 1, column 15. */
  lemma GetEndOfTagAsWrittenSkipsOwnLine()
    ensures var lines := ["<note>x</note>", "<note>y</note>"];
      && ClosingTagAfter(lines, EndTag("note"), Range(1, 1, 1, 7), Position(1, 15))
      && GetEndOfTagAsWritten("note", Range(1, 1, 1, 7), lines) == Position(2, 15)
  {
    var lines := ["<note>x</note>", "<note>y</note>"];
    var endTag := EndTag("note");
    assert endTag == "</note>";
    assert MatchAt(lines[0], endTag, 7);
    assert MatchAt(lines[1], endTag, 7);
    assert FirstMatchFrom(lines[0], endTag, 6, 7) by {
      assert !MatchAt(lines[0], endTag, 6) by { assert lines[0][6] != endTag[0]; }
    }
    assert IndexOf(lines[1], endTag, 0) == 7 by {
      forall k | 0 <= k < 7 ensures !MatchAt(lines[1], endTag, k) {
        assert lines[1][k] != endTag[0] || lines[1][k + 1] != endTag[1];
      }
    }
  }

  // ---------------------------------------------------------------------------------------
  // Self-closing test

  /** `IsClosedTag`: the tag text contains `/>`. */
  function IsClosedTag(tag: string): (r: bool)
    ensures r <==> exists k :: 0 <= k < |tag| - 1 && tag[k] == '/' && tag[k + 1] == '>'
  {
    var found := IndexOf(tag, "/>", 0);
    assert found != -1 ==> tag[found] == '/' && tag[found + 1] == '>' by {
      if found != -1 { assert tag[found + 0] == "/>"[0] && tag[found + 1] == "/>"[1]; }
    }
    assert forall k :: 0 <= k < |tag| - 1 && tag[k] == '/' && tag[k + 1] == '>' ==> MatchAt(tag, "/>", k) by {
      forall k | 0 <= k < |tag| - 1 && tag[k] == '/' && tag[k + 1] == '>' ensures MatchAt(tag, "/>", k) {
        forall j | 0 <= j < 2 ensures tag[k + j] == "/>"[j] {
          if j == 0 { } else { assert j == 1; }
        }
      }
    }
    found != -1
  }

  /** `IsClosedTag` is the search for the pattern `/>`. */
  lemma ClosedTagOccurs(tag: string)
    ensures IsClosedTag(tag) <==> Occurs(tag, "/>")
  {
    if Occurs(tag, "/>") {
      var k :| MatchAt(tag, "/>", k);
      assert tag[k + 0] == "/>"[0] && tag[k + 1] == "/>"[1];
    }
    if IsClosedTag(tag) {
      var k :| 0 <= k < |tag| - 1 && tag[k] == '/' && tag[k + 1] == '>';
      forall j | 0 <= j < 2 ensures tag[k + j] == "/>"[j] {
        if j == 0 { } else { assert j == 1; }
      }
      assert MatchAt(tag, "/>", k);
    }
  }

  // ---------------------------------------------------------------------------------------
  // Range expander

  /** A match the expander can be given: its end line exists, and its end column is at most
      one past the last character of that line, as `String.IndexOf` needs of a start index. */
  predicate Expandable(m: Range, lines: seq<string>)
  {
    1 <= m.endLineNumber <= |lines| && 1 <= m.endColumn <= |lines[m.endLineNumber - 1]| + 1
  }

  /** `j` is the first index at or after `from` where `line` holds `>`. */
  ghost predicate FirstBracketAt(line: string, from: int, j: int)
  {
    0 <= from <= j < |line| && line[j] == '>' && forall k :: from <= k < j ==> line[k] != '>'
  }

  /** `line` holds no `>` at or after `from`. */
  ghost predicate NoBracketFrom(line: string, from: int)
  {
    forall k :: 0 <= from <= k < |line| ==> line[k] != '>'
  }

  /** What expanding match `m` gives: the same start; an end one past the first `>` at or
      after the match's end on its own line, else one past the first `>` of the very next
      line; and `MalformedTag` when neither line has one (no further line is looked at). */
  ghost predicate ExpandsTo(m: Range, lines: seq<string>, r: Result<Range>)
    requires Expandable(m, lines)
  {
    var line := lines[m.endLineNumber - 1];
    var from := m.endColumn - 1;
    match r
    case Ok(e) =>
      && e.startLineNumber == m.startLineNumber
      && e.startColumn == m.startColumn
      && (|| (e.endLineNumber == m.endLineNumber && FirstBracketAt(line, from, e.endColumn - 2))
          || (&& e.endLineNumber == m.endLineNumber + 1
              && m.endLineNumber < |lines|
              && NoBracketFrom(line, from)
              && FirstBracketAt(lines[m.endLineNumber], 0, e.endColumn - 2)))
    case Err(error) =>
      && error == MalformedTag
      && NoBracketFrom(line, from)
      && (m.endLineNumber == |lines| || NoBracketFrom(lines[m.endLineNumber], 0))
  }

  /** `IndexOf(line, ">", from)` finds exactly the first bracket. */
  lemma BracketIndex(line: string, from: nat)
    requires from <= |line|
    ensures var j := IndexOf(line, ">", from);
      && (j == -1 <==> NoBracketFrom(line, from))
      && (j != -1 ==> FirstBracketAt(line, from, j))
  {
    var j := IndexOf(line, ">", from);
    forall k | 0 <= k < |line| ensures MatchAt(line, ">", k) <==> line[k] == '>' {
      MatchAtChar(line, '>', k);
    }
    if j != -1 {
      MatchAtChar(line, '>', j);
    }
  }

  /** `ExpandTagRange`. */
  method ExpandTagRange(matchRange: Range, lines: seq<string>) returns (r: Result<Range>)
    requires Expandable(matchRange, lines)
    ensures ExpandsTo(matchRange, lines, r)
  {
    var tagCloseLine := matchRange.endLineNumber;
    var line := lines[tagCloseLine - 1];
    BracketIndex(line, matchRange.endColumn - 1);
    var tagCloseCol := IndexOf(line, ">", matchRange.endColumn - 1);
    if tagCloseCol == -1 {
      tagCloseLine := tagCloseLine + 1;
      if tagCloseLine > |lines| {
        return Err(MalformedTag);
      }
      line := lines[tagCloseLine - 1];
      BracketIndex(line, 0);
      tagCloseCol := IndexOf(line, ">", 0);
      if tagCloseCol == -1 {
        return Err(MalformedTag);
      }
    }
    tagCloseCol := tagCloseCol + 2;
    r := Ok(Range(matchRange.startLineNumber, matchRange.startColumn, tagCloseLine, tagCloseCol));
  }

  /** A match has exactly one expansion. */
  lemma ExpandsToUnique(m: Range, lines: seq<string>, r1: Result<Range>, r2: Result<Range>)
    requires Expandable(m, lines)
    requires ExpandsTo(m, lines, r1) && ExpandsTo(m, lines, r2)
    ensures r1 == r2
  {
    var line := lines[m.endLineNumber - 1];
    var from := m.endColumn - 1;
    if r1.Ok? && r2.Ok? {
      var e1, e2 := r1.value, r2.value;
      if e1.endLineNumber == m.endLineNumber {
        FirstBracketUnique(line, from, e1.endColumn - 2, e2.endColumn - 2);
      } else {
        FirstBracketUnique(lines[m.endLineNumber], 0, e1.endColumn - 2, e2.endColumn - 2);
      }
    }
  }

  lemma FirstBracketUnique(line: string, from: int, j1: int, j2: int)
    requires FirstBracketAt(line, from, j1) || NoBracketFrom(line, from)
    requires FirstBracketAt(line, from, j2)
    ensures FirstBracketAt(line, from, j1) && j1 == j2
  {
  }

  /** `ExpandTagRange` as written: when neither line has a `>`, the missing index -1 becomes
      column 1 of the next line; asking for a line past the end of the buffer fails. */
  function ExpandTagRangeAsWritten(m: Range, lines: seq<string>): Result<Range>
    requires Expandable(m, lines)
  {
    var tagCloseCol := IndexOf(lines[m.endLineNumber - 1], ">", m.endColumn - 1);
    if tagCloseCol != -1 then
      Ok(Range(m.startLineNumber, m.startColumn, m.endLineNumber, tagCloseCol + 2))
    else if m.endLineNumber + 1 > |lines| then
      Err(LineOutOfRange)
    else
      Ok(Range(m.startLineNumber, m.startColumn, m.endLineNumber + 1,
               IndexOf(lines[m.endLineNumber], ">", 0) + 2))
  }

  /** Wherever a `>` closes the tag, the code as written and `ExpandTagRange` agree; where
      none does but a next line exists, the code returns a range ending at column 1 of that
      line, with no `>` before its end; where none does on the last line, the code asks for a
      line the buffer does not have. */
  lemma ExpandTagRangeAsWrittenAgrees(m: Range, lines: seq<string>, r: Result<Range>)
    requires Expandable(m, lines)
    requires ExpandsTo(m, lines, r)
    ensures r.Ok? ==> ExpandTagRangeAsWritten(m, lines) == r
    ensures r.Err? && m.endLineNumber < |lines| ==>
      ExpandTagRangeAsWritten(m, lines) == Ok(Range(m.startLineNumber, m.startColumn, m.endLineNumber + 1, 1))
    ensures r.Err? && m.endLineNumber == |lines| ==> ExpandTagRangeAsWritten(m, lines) == Err(LineOutOfRange)
  {
    BracketIndex(lines[m.endLineNumber - 1], m.endColumn - 1);
    if m.endLineNumber < |lines| {
      BracketIndex(lines[m.endLineNumber], 0);
    }
    if r.Ok? {
      var j := IndexOf(lines[m.endLineNumber - 1], ">", m.endColumn - 1);
      if r.value.endLineNumber == m.endLineNumber {
        FirstBracketUnique(lines[m.endLineNumber - 1], m.endColumn - 1, j, r.value.endColumn - 2);
      } else {
        var j2 := IndexOf(lines[m.endLineNumber], ">", 0);
        FirstBracketUnique(lines[m.endLineNumber], 0, j2, r.value.endColumn - 2);
      }
    }
  }

  /** A `<pb` whose attributes run over three lines: the code as written ends the tag at
      column 1 of line 2, where the expander reports `MalformedTag`. */
  lemma ExpandTagRangeAsWrittenColumnOne()
    ensures var lines := ["<pb", "n=\"3\"", "/>"];
      && ExpandsTo(Range(1, 1, 1, 4), lines, Err(MalformedTag))
      && ExpandTagRangeAsWritten(Range(1, 1, 1, 4), lines) == Ok(Range(1, 1, 2, 1))
  {
    var lines := ["<pb", "n=\"3\"", "/>"];
    assert NoBracketFrom(lines[1], 0) by {
      assert lines[1] == ['n', '=', '"', '3', '"'];
    }
    ExpandTagRangeAsWrittenAgrees(Range(1, 1, 1, 4), lines, Err(MalformedTag));
  }
}
