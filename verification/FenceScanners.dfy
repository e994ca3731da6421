/** The rule by which the two Markdown fence scanners read a document, and the first of them, the generator
    `prose_lines` in learning/validate_docs.py. The second is in LessonChecker.

    Both walk the lines of a document with one piece of state, the fence that is open. Here a document is a sequence
    of pieces (prose lines and fenced blocks) with at most one unclosed block at the end. Reading lines into a
    document and rendering a document into lines are inverse to each other, and both scanners report exactly what
    the document says. */
module FenceScanners {
  import opened Options

  // ----- One line: the expression ^\s*(`{3,}|~{3,})(.*)$ -----

  datatype Marker = Marker(fence: string, rest: string)

  /** The characters that \s, strip and rstrip treat as white space. */
  predicate IsSpace(c: char) {
    var n := c as int;
    || 9 <= n <= 13
    || 28 <= n <= 32
    || n == 0x85 || n == 0xA0 || n == 0x1680
    || 0x2000 <= n <= 0x200A
    || n == 0x2028 || n == 0x2029 || n == 0x202F || n == 0x205F || n == 0x3000
  }

  /** The same characters one by one: tab to carriage return, four separators, the space, and those beyond ASCII. */
  const SPACES := ['\t', '\n', '\U{000b}', '\U{000c}', '\r', '\U{001c}', '\U{001d}', '\U{001e}', '\U{001f}', ' ',
                   '\U{0085}', '\U{00a0}', '\U{1680}', '\U{2000}', '\U{2001}', '\U{2002}', '\U{2003}', '\U{2004}',
                   '\U{2005}', '\U{2006}', '\U{2007}', '\U{2008}', '\U{2009}', '\U{200a}', '\U{2028}', '\U{2029}',
                   '\U{202f}', '\U{205f}', '\U{3000}']

  lemma SpacesAre(c: char)
    ensures IsSpace(c) <==> c in SPACES
  {
    assert forall i | 0 <= i < |SPACES| :: IsSpace(SPACES[i]);
    assert IsSpace(c) ==> c in SPACES;
  }

  predicate IsFenceChar(c: char) {
    c == '`' || c == '~'
  }

  ghost predicate AllSpace(s: string) {
    forall i :: 0 <= i < |s| ==> IsSpace(s[i])
  }

  ghost predicate Uniform(s: string, c: char) {
    forall i :: 0 <= i < |s| ==> s[i] == c
  }

  function Spaces(s: string): (n: nat)
    ensures n <= |s|
    ensures AllSpace(s[..n])
    ensures n < |s| ==> !IsSpace(s[n])
  {
    if s != "" && IsSpace(s[0]) then 1 + Spaces(s[1..]) else 0
  }

  function Run(s: string, c: char): (n: nat)
    ensures n <= |s|
    ensures Uniform(s[..n], c)
    ensures n < |s| ==> s[n] != c
  {
    if s != "" && s[0] == c then 1 + Run(s[1..], c) else 0
  }

  function MatchFence(line: string): (m: Option<Marker>)
    ensures m.Some? ==> |m.value.fence| >= 3 && IsFenceChar(m.value.fence[0])
  {
    var text := line[Spaces(line)..];
    if text != "" && IsFenceChar(text[0]) && Run(text, text[0]) >= 3 then
      var n := Run(text, text[0]);
      Some(Marker(text[..n], text[n..]))
    else
      None
  }

  /** One way the expression can match: white space, a fence run, anything. */
  ghost predicate Splits(line: string, pad: string, m: Marker) {
    && line == pad + m.fence + m.rest
    && AllSpace(pad)
    && |m.fence| >= 3
    && IsFenceChar(m.fence[0])
    && Uniform(m.fence, m.fence[0])
  }

  lemma {:induction false} MatchSplits(line: string)
    requires MatchFence(line).Some?
    ensures Splits(line, line[..Spaces(line)], MatchFence(line).value)
  {
    hide Spaces, Run, IsSpace;
    var p := Spaces(line);
    var text := line[p..];
    var n := Run(text, text[0]);
    assert text == text[..n] + text[n..];
    assert line == line[..p] + text;
    assert text[..n][0] == text[0];
  }

  /** MatchFence finds a match whenever there is one, and the one with the longest run. */
  lemma {:induction false} MatchIsLongest(line: string, pad: string, m: Marker)
    requires Splits(line, pad, m)
    ensures MatchFence(line).Some?
    ensures pad == line[..Spaces(line)]
    ensures m.fence <= MatchFence(line).value.fence
  {
    hide Spaces, Run;
    var p, k := |pad|, |m.fence|;
    assert line[p] == m.fence[0];
    assert forall i :: 0 <= i < p ==> line[i] == pad[i];
    var n := Spaces(line);
    assert forall i :: 0 <= i < n ==> line[i] == line[..n][i];
    assert n == p;
    var text := line[p..];
    assert text == m.fence + m.rest;
    var r := Run(text, text[0]);
    assert forall i :: 0 <= i < k ==> text[i] == m.fence[i];
    assert r >= k;
    assert text[..r][..k] == m.fence;
  }

  lemma {:induction false} SpacesEnd(line: string, p: nat)
    requires p < |line| && AllSpace(line[..p]) && !IsSpace(line[p])
    ensures Spaces(line) == p
  {
    hide Spaces, IsSpace;
    var n := Spaces(line);
    assert forall i | 0 <= i < p :: line[i] == line[..p][i];
    assert forall i | 0 <= i < n :: line[i] == line[..n][i];
  }

  /** A line holds a fence exactly when three backticks or three tildes follow its leading white space. */
  lemma FenceExactly(line: string)
    ensures MatchFence(line).Some?
       <==> exists p | 0 <= p <= |line| - 3 :: AllSpace(line[..p]) && line[p..p + 3] in ["```", "~~~"]
    ensures '`' !in line && '~' !in line ==> MatchFence(line).None?
  {
    hide Spaces, Run;
    if MatchFence(line).Some? {
      MatchSplits(line);
      var p, fence := Spaces(line), MatchFence(line).value.fence;
      assert line[p..p + 3] == fence[..3];
      assert fence[..3] == [fence[0], fence[0], fence[0]];
      assert line[p] == fence[0];
    }
    if p :| 0 <= p <= |line| - 3 && AllSpace(line[..p]) && line[p..p + 3] in ["```", "~~~"] {
      var m := Marker(line[p..p + 3], line[p + 3..]);
      assert line == line[..p] + m.fence + m.rest;
      assert m.fence == [m.fence[0], m.fence[0], m.fence[0]];
      MatchIsLongest(line, line[..p], m);
    }
  }

  function StripLeft(s: string): string {
    s[Spaces(s)..]
  }

  function StripRight(s: string): string {
    if s != "" && IsSpace(s[|s| - 1]) then StripRight(s[..|s| - 1]) else s
  }

  function Strip(s: string): string {
    StripRight(StripLeft(s))
  }

  lemma {:induction false} StripRightDrops(s: string, end: string)
    requires AllSpace(end) && (s == "" || !IsSpace(s[|s| - 1]))
    ensures StripRight(s + end) == s
  {
    hide IsSpace;
    if end == "" {
      assert s + end == s;
    } else {
      StripRightDrops(s, end[..|end| - 1]);
      assert (s + end)[..|s + end| - 1] == s + end[..|end| - 1];
    }
  }

  /** Strip takes off the white space at both ends and no more. */
  lemma StripDrops(pad: string, s: string, end: string)
    requires AllSpace(pad) && AllSpace(end)
    requires s == "" || (!IsSpace(s[0]) && !IsSpace(s[|s| - 1]))
    ensures Strip(pad + s + end) == s
  {
    hide IsSpace, Spaces, StripRight;
    var all := pad + s + end;
    if s == "" {
      BlankIsDropped(all);
    } else {
      assert all[..|pad|] == pad && all[|pad|] == s[0];
      SpacesEnd(all, |pad|);
      assert all[|pad|..] == s + end;
      StripRightDrops(s, end);
    }
  }

  lemma BlankIsDropped(s: string)
    requires AllSpace(s)
    ensures Strip(s) == ""
  {
    hide IsSpace;
    var n := Spaces(s);
    if n < |s| {
      assert false;
    }
    assert s[n..] == "";
  }

  /** `line` ends a block opened by `fence`: same character, no shorter, nothing after it. */
  predicate Closes(line: string, fence: string) {
    var m := MatchFence(line);
    && fence != ""
    && m.Some?
    && m.value.fence[0] == fence[0]
    && |m.value.fence| >= |fence|
    && Strip(m.value.rest) == ""
  }

  function FenceOf(opening: string): string {
    var m := MatchFence(opening);
    if m.Some? then m.value.fence else ""
  }

  function LanguageOf(opening: string): string {
    var m := MatchFence(opening);
    if m.Some? then Strip(m.value.rest) else ""
  }

  // ----- Documents -----

  datatype Piece = Prose(line: string) | Block(opening: string, body: seq<string>, closing: string)

  datatype Unfinished = Unfinished(opening: string, body: seq<string>)

  datatype Document = Document(pieces: seq<Piece>, unclosed: Option<Unfinished>)

  const BLANK := Document([], None)

  ghost predicate NoneCloses(body: seq<string>, fence: string) {
    forall i :: 0 <= i < |body| ==> !Closes(body[i], fence)
  }

  ghost predicate GoodPiece(piece: Piece) {
    match piece
    case Prose(line) => MatchFence(line).None?
    case Block(opening, body, closing) =>
      && MatchFence(opening).Some?
      && NoneCloses(body, FenceOf(opening))
      && Closes(closing, FenceOf(opening))
  }

  ghost predicate GoodPieces(pieces: seq<Piece>) {
    forall k :: 0 <= k < |pieces| ==> GoodPiece(pieces[k])
  }

  /** Prose lines hold no marker; a block's body never closes it and its last line does. */
  ghost predicate WellFormed(doc: Document) {
    && GoodPieces(doc.pieces)
    && (doc.unclosed.Some? ==>
          && MatchFence(doc.unclosed.value.opening).Some?
          && NoneCloses(doc.unclosed.value.body, FenceOf(doc.unclosed.value.opening)))
  }

  function RenderPiece(piece: Piece): seq<string> {
    match piece
    case Prose(line) => [line]
    case Block(opening, body, closing) => [opening] + body + [closing]
  }

  function RenderPieces(pieces: seq<Piece>): seq<string> {
    if pieces == [] then []
    else RenderPieces(pieces[..|pieces| - 1]) + RenderPiece(pieces[|pieces| - 1])
  }

  function Render(doc: Document): seq<string> {
    RenderPieces(doc.pieces)
    + (if doc.unclosed.None? then [] else [doc.unclosed.value.opening] + doc.unclosed.value.body)
  }

  /** What one more line makes of a document. */
  function Extend(doc: Document, line: string): Document {
    match doc.unclosed
    case None =>
      if MatchFence(line).Some? then Document(doc.pieces, Some(Unfinished(line, [])))
      else Document(doc.pieces + [Prose(line)], None)
    case Some(u) =>
      if Closes(line, FenceOf(u.opening)) then
        Document(doc.pieces + [Block(u.opening, u.body, line)], None)
      else Document(doc.pieces, Some(Unfinished(u.opening, u.body + [line])))
  }

  function ReadOn(doc: Document, lines: seq<string>): Document {
    if lines == [] then doc
    else Extend(ReadOn(doc, lines[..|lines| - 1]), lines[|lines| - 1])
  }

  function Read(lines: seq<string>): Document {
    ReadOn(BLANK, lines)
  }

  lemma {:induction false} RenderOneMore(pieces: seq<Piece>, piece: Piece)
    ensures RenderPieces(pieces + [piece]) == RenderPieces(pieces) + RenderPiece(piece)
  {
    assert (pieces + [piece])[..|pieces|] == pieces;
  }

  lemma ExtendWellFormed(doc: Document, line: string)
    requires WellFormed(doc)
    ensures WellFormed(Extend(doc, line))
  {
    hide MatchFence, Closes, FenceOf;
  }

  lemma ExtendRenders(doc: Document, line: string)
    ensures Render(Extend(doc, line)) == Render(doc) + [line]
  {
    hide MatchFence, Closes, FenceOf, RenderPieces;
    var before := RenderPieces(doc.pieces);
    match doc.unclosed
    case None =>
      RenderOneMore(doc.pieces, Prose(line));
      assert before + ([line] + []) == before + [line];
      assert before + [] == before;
    case Some(u) =>
      RenderOneMore(doc.pieces, Block(u.opening, u.body, line));
      assert before + ([u.opening] + (u.body + [line])) == before + ([u.opening] + u.body) + [line];
      assert before + ([u.opening] + u.body + [line]) == before + ([u.opening] + u.body) + [line];
  }

  lemma BlankReads()
    ensures Read([]) == BLANK && WellFormed(BLANK) && Render(BLANK) == []
  {}

  lemma ReadLast(lines: seq<string>)
    requires lines != []
    ensures Read(lines) == Extend(Read(lines[..|lines| - 1]), lines[|lines| - 1])
    ensures lines == lines[..|lines| - 1] + [lines[|lines| - 1]]
  {
    hide Extend;
  }

  /** Every line sequence is the rendering of the well-formed document read from it. */
  lemma {:induction false} ReadThenRender(lines: seq<string>)
    ensures WellFormed(Read(lines))
    ensures Render(Read(lines)) == lines
  {
    hide *;
    if lines == [] {
      BlankReads();
    } else {
      var before := lines[..|lines| - 1];
      ReadThenRender(before);
      ReadLast(lines);
      ExtendWellFormed(Read(before), lines[|lines| - 1]);
      ExtendRenders(Read(before), lines[|lines| - 1]);
    }
  }

  lemma {:induction false} ReadOnSplits(doc: Document, left: seq<string>, right: seq<string>)
    ensures ReadOn(doc, left + right) == ReadOn(ReadOn(doc, left), right)
    decreases |right|
  {
    hide Extend;
    if right == [] {
      assert left + right == left;
    } else {
      var most := right[..|right| - 1];
      ReadOnSplits(doc, left, most);
      assert (left + right)[..|left + right| - 1] == left + most;
    }
  }

  lemma {:induction false} ReadOnOne(doc: Document, line: string)
    ensures ReadOn(doc, [line]) == Extend(doc, line)
  {
    assert [line][..0] == [];
    assert ReadOn(doc, [line][..0]) == doc;
  }

  lemma {:induction false} ReadBody(pieces: seq<Piece>, opening: string, body: seq<string>)
    requires NoneCloses(body, FenceOf(opening))
    ensures ReadOn(Document(pieces, Some(Unfinished(opening, []))), body)
         == Document(pieces, Some(Unfinished(opening, body)))
  {
    hide Closes, FenceOf, MatchFence;
    if body == [] {
    } else {
      var most := body[..|body| - 1];
      ReadBody(pieces, opening, most);
      assert most + [body[|body| - 1]] == body;
    }
  }

  lemma {:induction false} ReadOpened(pieces: seq<Piece>, opening: string, body: seq<string>)
    requires MatchFence(opening).Some? && NoneCloses(body, FenceOf(opening))
    ensures ReadOn(Document(pieces, None), [opening] + body)
         == Document(pieces, Some(Unfinished(opening, body)))
  {
    hide Closes, FenceOf, MatchFence;
    ReadOnSplits(Document(pieces, None), [opening], body);
    ReadOnOne(Document(pieces, None), opening);
    ReadBody(pieces, opening, body);
  }

  lemma ReadPiece(pieces: seq<Piece>, piece: Piece)
    requires GoodPiece(piece)
    ensures ReadOn(Document(pieces, None), RenderPiece(piece)) == Document(pieces + [piece], None)
  {
    hide Closes, FenceOf, MatchFence;
    match piece
    case Prose(line) =>
      ReadOnOne(Document(pieces, None), line);
    case Block(opening, body, closing) =>
      ReadOnSplits(Document(pieces, None), [opening] + body, [closing]);
      ReadOpened(pieces, opening, body);
      ReadOnOne(Document(pieces, Some(Unfinished(opening, body))), closing);
  }

  lemma {:induction false} ReadPieces(pieces: seq<Piece>)
    requires GoodPieces(pieces)
    ensures Read(RenderPieces(pieces)) == Document(pieces, None)
  {
    hide GoodPiece, RenderPiece, Extend, MatchFence, Closes;
    if pieces == [] {
      assert RenderPieces(pieces) == [];
    } else {
      hide ReadOn;
      var most := pieces[..|pieces| - 1];
      var last := pieces[|pieces| - 1];
      ReadPieces(most);
      ReadOnSplits(BLANK, RenderPieces(most), RenderPiece(last));
      ReadPiece(most, last);
      assert most + [last] == pieces;
    }
  }

  /** Scanning the rendering of a well-formed document gives that document back. */
  lemma RenderThenRead(doc: Document)
    requires WellFormed(doc)
    ensures Read(Render(doc)) == doc
  {
    hide GoodPieces, Closes, FenceOf, MatchFence;
    ReadPieces(doc.pieces);
    match doc.unclosed
    case None =>
      assert RenderPieces(doc.pieces) + [] == RenderPieces(doc.pieces);
    case Some(u) =>
      ReadOnSplits(BLANK, RenderPieces(doc.pieces), [u.opening] + u.body);
      ReadOpened(doc.pieces, u.opening, u.body);
  }

  /**
   * A body wrapped in a fence comes back line for line exactly when none of its
   * lines closes that fence.
   */
  lemma WrappedBodyRecovered(opening: string, body: seq<string>, closing: string)
    requires MatchFence(opening).Some? && Closes(closing, FenceOf(opening))
    ensures Read([opening] + body + [closing]) == Document([Block(opening, body, closing)], None)
       <==> NoneCloses(body, FenceOf(opening))
  {
    hide Closes, FenceOf, MatchFence;
    var block := Block(opening, body, closing);
    var lines := [opening] + body + [closing];
    if NoneCloses(body, FenceOf(opening)) {
      RenderOneMore([], block);
      assert [] + [block] == [block];
      assert RenderPieces([block]) == lines;
      ReadPieces([block]);
    }
    if Read(lines) == Document([block], None) {
      ReadThenRender(lines);
      assert GoodPiece(Read(lines).pieces[0]);
    }
  }

  // ----- A fence that fits any body -----

  function Fence(c: char, n: nat): string {
    seq(n, _ => c)
  }

  function LongestLine(body: seq<string>): (n: nat)
    ensures forall i :: 0 <= i < |body| ==> |body[i]| <= n
  {
    if body == [] then 0
    else
      var rest := LongestLine(body[1..]);
      if |body[0]| > rest then |body[0]| else rest
  }

  lemma FenceMatches(c: char, n: nat, rest: string)
    requires IsFenceChar(c) && n >= 3
    requires rest != "" ==> rest[0] != c
    ensures MatchFence(Fence(c, n) + rest) == Some(Marker(Fence(c, n), rest))
  {
    hide Spaces, Run;
    var line := Fence(c, n) + rest;
    assert line[0] == c;
    assert Spaces(line) == 0;
    assert line[0..] == line;
    var r := Run(line, c);
    assert forall i :: 0 <= i < r ==> line[i] == line[..r][i];
    assert n < |line| ==> line[n] == rest[0];
    assert r == n;
    assert line[..n] == Fence(c, n) && line[n..] == rest;
  }

  lemma {:induction false} TooShortToClose(body: seq<string>, c: char, n: nat)
    requires n > LongestLine(body)
    ensures NoneCloses(body, Fence(c, n))
  {
    forall i | 0 <= i < |body|
      ensures !Closes(body[i], Fence(c, n))
    {
      hide Spaces, Run, IsSpace, MatchFence, Strip;
      if Closes(body[i], Fence(c, n)) {
        MatchSplits(body[i]);
      }
    }
  }

  lemma FenceCloses(c: char, n: nat)
    requires IsFenceChar(c) && n >= 3
    ensures Closes(Fence(c, n), Fence(c, n))
  {
    hide MatchFence;
    FenceMatches(c, n, "");
    assert Fence(c, n) + "" == Fence(c, n);
  }

  /** Wrapped between these two lines, the body is read as one block in this language. */
  ghost predicate Recovers(opening: string, closing: string, language: string, body: seq<string>) {
    && LanguageOf(opening) == language
    && Read([opening] + body + [closing]) == Document([Block(opening, body, closing)], None)
  }

  /** The fence character a language leaves free: a backtick unless the language starts with one. */
  function FreeChar(language: string): (c: char)
    ensures IsFenceChar(c) && (language != "" ==> language[0] != c)
  {
    if language != "" && language[0] == '`' then '~' else '`'
  }

  /** Any body under any trimmed language has a fence long enough to recover both. */
  lemma AnyBodyCanBeFenced(language: string, body: seq<string>) returns (fence: string)
    requires Strip(language) == language
    ensures Recovers(fence + language, fence, language, body)
  {
    hide MatchFence, Closes, Strip, Read;
    var c, n := FreeChar(language), 3 + LongestLine(body);
    fence := Fence(c, n);
    FenceMatches(c, n, language);
    FenceCloses(c, n);
    WrappedBodyRecovered(fence + language, body, fence);
    TooShortToClose(body, c, n);
  }

  lemma {:induction false} StripRightEnds(s: string)
    ensures StripRight(s) <= s
    ensures StripRight(s) != "" ==> !IsSpace(StripRight(s)[|StripRight(s)| - 1])
    ensures StripRight(StripRight(s)) == StripRight(s)
  {
    hide IsSpace;
    if s != "" {
      StripRightEnds(s[..|s| - 1]);
    }
  }

  lemma StripTwice(s: string)
    ensures Strip(Strip(s)) == Strip(s)
  {
    hide IsSpace, Spaces, StripRight;
    var left := StripLeft(s);
    StripRightEnds(left);
    var all := Strip(s);
    if all != "" {
      assert all[0] == left[0] == s[Spaces(s)];
      NoLeadingSpace(all);
    }
  }

  lemma {:induction false} NoLeadingSpace(s: string)
    requires s != "" && !IsSpace(s[0])
    ensures Spaces(s) == 0
  {}

  /** A body can be recovered under a language exactly when the language is trimmed. */
  lemma FenceableExactly(language: string, body: seq<string>)
    ensures (exists opening, closing :: Recovers(opening, closing, language, body)) <==> Strip(language) == language
  {
    hide Read, MatchFence, Strip;
    if Strip(language) == language {
      var fence := AnyBodyCanBeFenced(language, body);
      assert Recovers(fence + language, fence, language, body);
    }
    if opening, closing :| Recovers(opening, closing, language, body) {
      EmptyIsStripped();
      if MatchFence(opening).Some? {
        StripTwice(MatchFence(opening).value.rest);
      }
    }
  }

  lemma EmptyIsStripped()
    ensures Strip("") == ""
  {}

  // ----- What the scanners report -----

  datatype Numbered = Numbered(number: nat, line: string)

  /** The prose lines of a document with their line numbers, counted from 1. */
  function ProseOf(pieces: seq<Piece>): seq<Numbered> {
    if pieces == [] then []
    else
      var most, last := pieces[..|pieces| - 1], pieces[|pieces| - 1];
      ProseOf(most) + (if last.Prose? then [Numbered(|RenderPieces(most)| + 1, last.line)] else [])
  }

  lemma {:induction false} ProseOneMore(pieces: seq<Piece>, piece: Piece)
    ensures ProseOf(pieces + [piece])
         == ProseOf(pieces) + (if piece.Prose? then [Numbered(|RenderPieces(pieces)| + 1, piece.line)] else [])
  {
    assert (pieces + [piece])[..|pieces|] == pieces;
  }

  /** `fence` is the state of a scanner that has read `doc`. */
  ghost predicate Follows(doc: Document, fence: Option<string>) {
    && WellFormed(doc)
    && fence == if doc.unclosed.None? then None else Some(FenceOf(doc.unclosed.value.opening))
  }

  lemma ReadNext(lines: seq<string>, i: nat)
    requires i < |lines|
    ensures Read(lines[..i + 1]) == Extend(Read(lines[..i]), lines[i])
    ensures WellFormed(Read(lines[..i]))
    ensures Render(Read(lines[..i])) == lines[..i]
  {
    hide Extend, Render, WellFormed;
    ReadThenRender(lines[..i]);
    assert lines[..i + 1][..i] == lines[..i];
  }

  /** How one line moves the fence and the prose found so far. */
  lemma FenceNext(lines: seq<string>, i: nat, fence: Option<string>)
    requires i < |lines| && Follows(Read(lines[..i]), fence)
    ensures fence.Some? ==> fence.value != ""
    ensures fence.Some? && Closes(lines[i], fence.value) ==> Follows(Read(lines[..i + 1]), None)
    ensures fence.Some? && !Closes(lines[i], fence.value) ==> Follows(Read(lines[..i + 1]), fence)
    ensures fence.None? && MatchFence(lines[i]).Some? ==>
              Follows(Read(lines[..i + 1]), Some(MatchFence(lines[i]).value.fence))
    ensures fence.None? && MatchFence(lines[i]).None? ==> Follows(Read(lines[..i + 1]), None)
    ensures ProseOf(Read(lines[..i + 1]).pieces) == ProseOf(Read(lines[..i]).pieces)
              + if fence.None? && MatchFence(lines[i]).None? then [Numbered(i + 1, lines[i])] else []
  {
    hide Closes, MatchFence, Read, ProseOf, WellFormed, RenderPieces;
    var doc := Read(lines[..i]);
    ReadNext(lines, i);
    ExtendWellFormed(doc, lines[i]);
    if doc.unclosed.None? {
      assert |RenderPieces(doc.pieces)| == i;
      ProseOneMore(doc.pieces, Prose(lines[i]));
    } else {
      OpenFenceLong(doc);
      ProseOneMore(doc.pieces, Block(doc.unclosed.value.opening, doc.unclosed.value.body, lines[i]));
    }
  }

  lemma OpenFenceLong(doc: Document)
    requires WellFormed(doc) && doc.unclosed.Some?
    ensures |FenceOf(doc.unclosed.value.opening)| >= 3
  {
    hide Closes, GoodPieces;
  }

  lemma StartFollows(lines: seq<string>)
    ensures Follows(Read(lines[..0]), None)
    ensures Read(lines[..0]) == BLANK && ProseOf(Read(lines[..0]).pieces) == []
    ensures lines[..|lines|] == lines
  {
  }

  lemma ClosesMeans(line: string, fence: string)
    requires fence != ""
    ensures Closes(line, fence) <==>
            var m := MatchFence(line);
            && m.Some? && m.value.fence != ""
            && m.value.fence[0] == fence[0]
            && |m.value.fence| >= |fence|
            && Strip(m.value.rest) == ""
  {
  }

  /** The generator in learning/validate_docs.py. */
  method ProseLines(lines: seq<string>) returns (prose: seq<Numbered>)
    ensures prose == ProseOf(Read(lines).pieces)
  {
    hide *;
    StartFollows(lines);
    prose := [];
    var fence: Option<string> := None;
    for i := 0 to |lines|
      invariant Follows(Read(lines[..i]), fence)
      invariant prose == ProseOf(Read(lines[..i]).pieces)
    {
      var line := lines[i];
      var number := i + 1;
      var marker := MatchFence(line);
      FenceNext(lines, i, fence);
      if fence.Some? {
        ClosesMeans(line, fence.value);
        if marker.Some? && marker.value.fence[0] == fence.value[0]
           && |marker.value.fence| >= |fence.value| && Strip(marker.value.rest) == "" {
          fence := None;
        }
      } else {
        if marker.Some? {
          fence := Some(marker.value.fence);
        } else {
          prose := prose + [Numbered(number, line)];
        }
      }
    }
  }

  /** Line `number` is yielded exactly when it is outside every block and holds no marker. */
  lemma {:induction false} ProseIsOutside(lines: seq<string>, number: nat, line: string)
    ensures Numbered(number, line) in ProseOf(Read(lines).pieces)
       <==> 1 <= number <= |lines| && line == lines[number - 1]
            && Read(lines[..number - 1]).unclosed.None? && MatchFence(line).None?
  {
    hide MatchFence, Closes, ProseOf, WellFormed, Read;
    if lines == [] {
      StartFollows(lines);
    } else {
      var n := |lines| - 1;
      var before := lines[..n];
      ReadThenRender(before);
      ProseIsOutside(before, number, line);
      var fence := if Read(before).unclosed.None? then None
                   else Some(FenceOf(Read(before).unclosed.value.opening));
      FenceNext(lines, n, fence);
      assert lines[..n + 1] == lines;
      assert 1 <= number <= n ==> before[..number - 1] == lines[..number - 1];
    }
  }
}
