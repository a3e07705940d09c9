/**
  The fence filter of tools/check_docs_links.py: fenced code blocks, as closed by the rule of section
  4.5 "Fenced code blocks" of CommonMark, are hidden from the link checks.
*/
module Fences {
  import opened Shared

  /** `str.isspace` for one character. */
  predicate IsSpace(c: char) {
    || c in "\t\n\U{0B}\U{0C}\r\U{1C}\U{1D}\U{1E}\U{1F} \U{85}\U{A0}\U{1680}"
    || c in "\U{2000}\U{2001}\U{2002}\U{2003}\U{2004}\U{2005}\U{2006}\U{2007}\U{2008}\U{2009}\U{200A}"
    || c in "\U{2028}\U{2029}\U{202F}\U{205F}\U{3000}"
  }

  /** Nothing is left of the text after `strip()`. */
  predicate Blank(s: string) {
    forall i :: 0 <= i < |s| ==> IsSpace(s[i])
  }

  /** How many times `c` is repeated at the start of a line. */
  function Leading(s: string, c: char): (n: nat)
    ensures n <= |s| && (forall i :: 0 <= i < n ==> s[i] == c) && (n < |s| ==> s[n] != c)
  {
    if s == "" || s[0] != c then 0 else 1 + Leading(s[1..], c)
  }

  /** At most three spaces, then at least three backticks or tildes, then anything. */
  datatype Marker = Marker(c: char, length: nat, rest: string)

  function MarkerOf(line: string): (m: Option<Marker>)
    ensures m.Some? ==> m.value.c in "`~" && m.value.length >= 3
  {
    var spaces := Leading(line, ' ');
    var body := line[spaces..];
    if spaces > 3 || body == "" || body[0] !in "`~" then None
    else
      var length := Leading(body, body[0]);
      if length < 3 then None else Some(Marker(body[0], length, body[length..]))
  }

  /** The closing rule: same character, at least the opening length, nothing but blanks after it. */
  predicate Closes(opening: Marker, line: string) {
    var m := MarkerOf(line);
    m.Some? && m.value.c == opening.c && m.value.length >= opening.length && Blank(m.value.rest)
  }

  // ---------------------------------------------------------------- what a marker is, character by character

  /** The line is `spaces` blanks, then `length` times the character, then a rest that does not repeat it. */
  ghost predicate Spelled(line: string, spaces: nat, c: char, length: nat, rest: string) {
    && |line| == spaces + length + |rest|
    && (forall i :: 0 <= i < spaces ==> line[i] == ' ')
    && (forall i :: spaces <= i < spaces + length ==> line[i] == c)
    && line[spaces + length..] == rest
    && (rest != "" ==> rest[0] != c)
  }

  /** A line is a fence marker exactly when at most three blanks precede at least three backticks or tildes. */
  lemma MarkerExactly(line: string, c: char, length: nat, rest: string)
    ensures MarkerOf(line) == Some(Marker(c, length, rest)) <==>
            && (c == '`' || c == '~') && 3 <= length
            && exists spaces :: 0 <= spaces <= 3 && Spelled(line, spaces, c, length, rest)
  {
    if MarkerOf(line) == Some(Marker(c, length, rest)) {
      var spaces := MarkerIsSpelled(line, c, length, rest);
    }
    hide MarkerOf;
    hide Spelled;
    if (c == '`' || c == '~') && 3 <= length {
      forall spaces | 0 <= spaces <= 3 && Spelled(line, spaces, c, length, rest)
        ensures MarkerOf(line) == Some(Marker(c, length, rest))
      {
        SpelledIsMarker(line, spaces, c, length, rest);
      }
    }
  }

  lemma MarkerIsSpelled(line: string, c: char, length: nat, rest: string) returns (spaces: nat)
    requires MarkerOf(line) == Some(Marker(c, length, rest))
    ensures (c == '`' || c == '~') && 3 <= length && spaces <= 3 && Spelled(line, spaces, c, length, rest)
  {
    spaces := Leading(line, ' ');
    var body := line[spaces..];
    assert Leading(body, c) == length && body[length..] == rest;
    hide MarkerOf;
    assert forall i :: spaces <= i < spaces + length ==> line[i] == body[i - spaces];
    assert line[spaces + length..] == rest;
    assert rest != "" ==> rest[0] == body[length];
  }

  lemma SpelledIsMarker(line: string, spaces: nat, c: char, length: nat, rest: string)
    requires (c == '`' || c == '~') && 3 <= length && spaces <= 3 && Spelled(line, spaces, c, length, rest)
    ensures MarkerOf(line) == Some(Marker(c, length, rest))
  {
    LeadingIs(line, ' ', spaces);
    var body := line[spaces..];
    assert forall i :: 0 <= i < |body| ==> body[i] == line[spaces + i];
    assert body[length..] == rest;
    LeadingIs(body, c, length);
  }

  lemma LeadingIs(s: string, c: char, n: nat)
    requires n <= |s| && (forall i :: 0 <= i < n ==> s[i] == c) && (n < |s| ==> s[n] != c)
    ensures Leading(s, c) == n
  {
    var k := Leading(s, c);
  }

  /** Whitespace by code point. */
  lemma SpaceCodes(c: char)
    ensures IsSpace(c) <==>
            var n := c as int;
            || 9 <= n <= 13 || 28 <= n <= 32 || n == 133 || n == 160 || n == 5760 || 8192 <= n <= 8202
            || n == 8232 || n == 8233 || n == 8239 || n == 8287 || n == 12288
  {
  }

  /**
    A line closes a block exactly when it is a marker of the block's character, at least as long as the one that
    opened it, with nothing but whitespace after it.
   */
  lemma ClosesExactly(opening: Marker, line: string)
    ensures Closes(opening, line) <==>
            exists length: nat, rest ::
              && opening.length <= length && MarkerOf(line) == Some(Marker(opening.c, length, rest))
              && forall i :: 0 <= i < |rest| ==> IsSpace(rest[i])
  {
    hide MarkerOf;
    hide IsSpace;
    if Closes(opening, line) {
      var m := MarkerOf(line).value;
      assert MarkerOf(line) == Some(Marker(opening.c, m.length, m.rest));
    }
  }

  // ---------------------------------------------------------------- the filter

  /** The fence state after one line. */
  function Next(fence: Option<Marker>, line: string): Option<Marker> {
    match fence
    case Some(opening) => if Closes(opening, line) then None else fence
    case None => MarkerOf(line)
  }

  function FenceAfter(fence: Option<Marker>, lines: seq<string>): Option<Marker>
    decreases |lines|
  {
    if lines == [] then fence else FenceAfter(Next(fence, lines[0]), lines[1..])
  }

  /** The lines that stay visible when reading starts in state `fence`. */
  function Visible(fence: Option<Marker>, lines: seq<string>): seq<string>
    decreases |lines|
  {
    if lines == [] then []
    else
      (if fence.None? && MarkerOf(lines[0]).None? then [lines[0]] else [])
      + Visible(Next(fence, lines[0]), lines[1..])
  }

  /** No line is a fence marker. */
  ghost predicate Plain(lines: seq<string>) {
    forall i :: 0 <= i < |lines| ==> MarkerOf(lines[i]).None?
  }

  method VisibleMarkdown(lines: seq<string>) returns (visible: seq<string>)
    ensures visible == Visible(None, lines)
    ensures Plain(visible)
  {
    hide MarkerOf;
    hide Blank;
    hide Plain;
    visible := [];
    var fence: Option<Marker> := None;
    for i := 0 to |lines|
      invariant visible == Visible(None, lines[..i])
      invariant fence == FenceAfter(None, lines[..i])
    {
      var line := lines[i];
      var found := MarkerOf(line);
      assert lines[..i + 1] == lines[..i] + [line];
      VisibleConcat(None, lines[..i], [line]);
      OneLine(fence, line);
      hide Visible;
      hide FenceAfter;
      if fence.Some? {
        if found.Some? && found.value.c == fence.value.c && found.value.length >= fence.value.length
           && Blank(found.value.rest) {
          fence := None;
        }
        continue;
      }
      if found.Some? {
        fence := found;
      } else {
        visible := visible + [line];
      }
    }
    assert lines[..|lines|] == lines;
    VisibleHasNoMarkers(None, lines);
  }

  lemma {:induction false} VisibleHasNoMarkers(fence: Option<Marker>, lines: seq<string>)
    ensures Plain(Visible(fence, lines))
    decreases |lines|
  {
    hide MarkerOf;
    if lines == [] {
    } else {
      VisibleHasNoMarkers(Next(fence, lines[0]), lines[1..]);
      var rest := Visible(Next(fence, lines[0]), lines[1..]);
      assert Visible(fence, lines) == (if fence.None? && MarkerOf(lines[0]).None? then [lines[0]] else []) + rest;
    }
  }

  /** Text without markers passes unchanged. */
  lemma {:induction false} PlainIsVisible(lines: seq<string>)
    requires Plain(lines)
    ensures Visible(None, lines) == lines && FenceAfter(None, lines) == None
    decreases |lines|
  {
    hide MarkerOf;
    if lines == [] {
    } else {
      PlainIsVisible(lines[1..]);
    }
  }

  /** Filtering twice is filtering once. */
  lemma VisibleIdempotent(lines: seq<string>)
    ensures Visible(None, Visible(None, lines)) == Visible(None, lines)
  {
    VisibleHasNoMarkers(None, lines);
    PlainIsVisible(Visible(None, lines));
  }

  /** The filter distributes over concatenation, in the state the first part ends in. */
  lemma {:induction false} VisibleConcat(fence: Option<Marker>, a: seq<string>, b: seq<string>)
    ensures Visible(fence, a + b) == Visible(fence, a) + Visible(FenceAfter(fence, a), b)
    ensures FenceAfter(fence, a + b) == FenceAfter(FenceAfter(fence, a), b)
    decreases |a|
  {
    hide Next;
    hide MarkerOf;
    if a == [] {
      assert a + b == b;
    } else {
      var next, rest := Next(fence, a[0]), a[1..];
      assert (a + b)[1..] == rest + b && (a + b)[0] == a[0];
      VisibleConcat(next, rest, b);
      var first := if fence.None? && MarkerOf(a[0]).None? then [a[0]] else [];
      var end := FenceAfter(next, rest);
      assert first + (Visible(next, rest) + Visible(end, b)) == (first + Visible(next, rest)) + Visible(end, b);
    }
  }

  // ---------------------------------------------------------------- documents as blocks

  /** A document: visible lines, closed fenced blocks, and possibly one block left open at the end. */
  datatype Segment =
    | Text(line: string)
    | Block(open: string, body: seq<string>, close: string)

  datatype Document = Document(segments: seq<Segment>, unclosed: Option<(string, seq<string>)>)

  /** An opening line and body lines none of which closes it. */
  ghost predicate OpenBlock(open: string, body: seq<string>) {
    MarkerOf(open).Some? && forall i :: 0 <= i < |body| ==> !Closes(MarkerOf(open).value, body[i])
  }

  ghost predicate WellFormedSegment(s: Segment) {
    match s
    case Text(line) => MarkerOf(line).None?
    case Block(open, body, close) => OpenBlock(open, body) && Closes(MarkerOf(open).value, close)
  }

  ghost predicate WellFormed(d: Document) {
    && (forall i :: 0 <= i < |d.segments| ==> WellFormedSegment(d.segments[i]))
    && (d.unclosed.Some? ==> OpenBlock(d.unclosed.value.0, d.unclosed.value.1))
  }

  function Lines(s: Segment): seq<string> {
    match s
    case Text(line) => [line]
    case Block(open, body, close) => [open] + body + [close]
  }

  function Render(d: Document): seq<string>
    decreases |d.segments|
  {
    if d.segments == [] then
      match d.unclosed
      case None => []
      case Some(block) => [block.0] + block.1
    else Lines(d.segments[0]) + Render(d.(segments := d.segments[1..]))
  }

  function Texts(segments: seq<Segment>): seq<string> {
    if segments == [] then []
    else (if segments[0].Text? then [segments[0].line] else []) + Texts(segments[1..])
  }

  /** An open block hides itself and stays open. */
  lemma {:induction false} BodyHidden(opening: Marker, body: seq<string>)
    requires forall i :: 0 <= i < |body| ==> !Closes(opening, body[i])
    ensures Visible(Some(opening), body) == [] && FenceAfter(Some(opening), body) == Some(opening)
    decreases |body|
  {
    hide Closes;
    if body == [] {
    } else {
      BodyHidden(opening, body[1..]);
    }
  }

  lemma OneLine(fence: Option<Marker>, line: string)
    ensures Visible(fence, [line]) == if fence.None? && MarkerOf(line).None? then [line] else []
    ensures FenceAfter(fence, [line]) == Next(fence, line)
  {
    hide Next;
    hide MarkerOf;
    assert [line][1..] == [];
  }

  lemma SegmentVisible(s: Segment)
    requires WellFormedSegment(s)
    ensures Visible(None, Lines(s)) == (if s.Text? then [s.line] else [])
    ensures FenceAfter(None, Lines(s)) == None
  {
    hide MarkerOf;
    hide Visible;
    hide FenceAfter;
    match s
    case Text(line) => OneLine(None, line);
    case Block(open, body, close) =>
      var opening := MarkerOf(open).value;
      OneLine(None, open);
      BodyHidden(opening, body);
      OneLine(Some(opening), close);
      VisibleConcat(None, [open], body);
      VisibleConcat(None, [open] + body, [close]);
  }

  /** Exactly the text lines of a well-formed document are visible. */
  lemma {:induction false} VisibleIsTexts(d: Document)
    requires WellFormed(d)
    ensures Visible(None, Render(d)) == Texts(d.segments)
    ensures FenceAfter(None, Render(d)) == if d.unclosed.None? then None else MarkerOf(d.unclosed.value.0)
    decreases |d.segments|
  {
    hide MarkerOf;
    if d.segments != [] {
      var rest := d.(segments := d.segments[1..]);
      VisibleIsTexts(rest);
      SegmentVisible(d.segments[0]);
      VisibleConcat(None, Lines(d.segments[0]), Render(rest));
    } else if d.unclosed.Some? {
      var (open, body) := d.unclosed.value;
      OneLine(None, open);
      BodyHidden(MarkerOf(open).value, body);
      VisibleConcat(None, [open], body);
    }
  }

  /** The first line that closes `opening`, or the end. */
  function FindClose(opening: Marker, lines: seq<string>): (j: nat)
    ensures j <= |lines|
  {
    if lines == [] || Closes(opening, lines[0]) then 0 else 1 + FindClose(opening, lines[1..])
  }

  lemma {:induction false} FindCloseFirst(opening: Marker, lines: seq<string>)
    ensures var j := FindClose(opening, lines);
            && (forall i :: 0 <= i < j ==> !Closes(opening, lines[i]))
            && (j < |lines| ==> Closes(opening, lines[j]))
  {
    hide Closes;
    if lines == [] {
    } else {
      FindCloseFirst(opening, lines[1..]);
    }
  }

  function Parse(lines: seq<string>): Document
    decreases |lines|
  {
    if lines == [] then Document([], None)
    else if MarkerOf(lines[0]).None? then
      var rest := Parse(lines[1..]);
      rest.(segments := [Text(lines[0])] + rest.segments)
    else
      var body := lines[1..];
      var j := FindClose(MarkerOf(lines[0]).value, body);
      if j == |body| then Document([], Some((lines[0], body)))
      else
        var rest := Parse(body[j + 1..]);
        rest.(segments := [Block(lines[0], body[..j], body[j])] + rest.segments)
  }

  /** Parsing loses nothing and always yields a well-formed document. */
  lemma {:induction false} ParseFits(lines: seq<string>)
    ensures WellFormed(Parse(lines)) && Render(Parse(lines)) == lines
    decreases |lines|
  {
    hide MarkerOf;
    hide Closes;
    if lines == [] {
    } else {
      hide WellFormed;
      hide Render;
      if MarkerOf(lines[0]).None? {
        ParseFits(lines[1..]);
        Prepend(Text(lines[0]), Parse(lines[1..]));
      } else {
        var body := lines[1..];
        var j := FindClose(MarkerOf(lines[0]).value, body);
        FindCloseFirst(MarkerOf(lines[0]).value, body);
        if j < |body| {
          ParseFits(body[j + 1..]);
          Prepend(Block(lines[0], body[..j], body[j]), Parse(body[j + 1..]));
          Rejoin(lines, j);
        } else {
          OnlyOpen(lines[0], body);
          assert [lines[0]] + body == lines;
        }
      }
    }
  }

  lemma Rejoin(lines: seq<string>, j: nat)
    requires j + 1 < |lines|
    ensures [lines[0]] + lines[1..][..j] + [lines[1..][j]] + lines[1..][j + 1..] == lines
  {
  }

  lemma OnlyOpen(open: string, body: seq<string>)
    requires OpenBlock(open, body)
    ensures WellFormed(Document([], Some((open, body))))
    ensures Render(Document([], Some((open, body)))) == [open] + body
  {
  }

  /** Every list of lines is a well-formed document, and its text lines are the visible ones. */
  lemma ParseRoundTrip(lines: seq<string>)
    ensures WellFormed(Parse(lines)) && Render(Parse(lines)) == lines
    ensures Visible(None, lines) == Texts(Parse(lines).segments)
  {
    hide *;
    ParseFits(lines);
    VisibleIsTexts(Parse(lines));
  }

  lemma Prepend(s: Segment, d: Document)
    requires WellFormedSegment(s) && WellFormed(d)
    ensures var e := d.(segments := [s] + d.segments);
            WellFormed(e) && Render(e) == Lines(s) + Render(d)
  {
    hide WellFormedSegment;
    hide OpenBlock;
    var e := d.(segments := [s] + d.segments);
    assert e.(segments := e.segments[1..]) == d;
  }

  /** The visible lines are a subsequence of the input, in order. */
  ghost predicate Subsequence(a: seq<string>, b: seq<string>) {
    if a == [] then true
    else if b == [] then false
    else (a[0] == b[0] && Subsequence(a[1..], b[1..])) || Subsequence(a, b[1..])
  }

  lemma {:induction false} VisibleIsSubsequence(fence: Option<Marker>, lines: seq<string>)
    ensures Subsequence(Visible(fence, lines), lines)
    decreases |lines|
  {
    hide MarkerOf;
    hide Next;
    if lines == [] {
    } else {
      VisibleIsSubsequence(Next(fence, lines[0]), lines[1..]);
      var rest := Visible(Next(fence, lines[0]), lines[1..]);
      if fence.None? && MarkerOf(lines[0]).None? {
        assert Visible(fence, lines)[1..] == rest;
      } else {
        assert Visible(fence, lines) == rest;
      }
    }
  }
}
