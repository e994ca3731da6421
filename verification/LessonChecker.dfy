/** The second fence scanner: the line loop of `check` in ai/learning/ai-infrastructure/examples/check_lessons.py,
    with its code blocks, tables and links. */
module LessonChecker {
  import opened FenceScanners
  import opened Options

  datatype Snippet = Snippet(start: nat, code: string)

  datatype Finding =
    | TrailingSpace(number: nat)
    | TableWidth(number: nat, found: int, expected: int)
    | MissingLink(number: nat, path: string)
    | BadPython(start: nat)
    | BadShell(start: nat)
    | UnclosedFence(start: nat)
    | UnbalancedDetails

  /** What the checker asks others: which code the two syntax checks accept, how a link is unquoted, and
      which paths exist beside the document. */
  datatype Tools = Tools(python: string -> bool, shell: string -> bool, unquote: string -> string,
                         present: string -> bool)

  /** "\n".join(body) */
  function Joined(body: seq<string>): string {
    if body == [] then ""
    else if |body| == 1 then body[0]
    else body[0] + "\n" + Joined(body[1..])
  }

  predicate IsShell(language: string) {
    language == "bash" || language == "sh"
  }

  function NextNumber(pieces: seq<Piece>): nat {
    |RenderPieces(pieces)| + 1
  }

  // ----- Links: the expression !?\[[^\]]*\]\(([^)]+)\) -----

  const OPEN_BRACKET := "["[0]
  const CLOSE_BRACKET := "]"[0]
  const OPEN_PAREN := "("[0]
  const CLOSE_PAREN := ")"[0]

  /** A space and a double quote. */
  const TITLE_MARK := [' ', 34 as char]

  /** The position of the first such character, or the length if there is none. */
  function Find(s: string, c: char): (n: nat)
    ensures n <= |s|
    ensures c !in s[..n]
    ensures n < |s| ==> s[n] == c
  {
    if s == "" || s[0] == c then 0 else 1 + Find(s[1..], c)
  }

  lemma {:induction false} FindAt(before: string, c: char, after: string)
    requires c !in before
    ensures Find(before + [c] + after, c) == |before|
  {
    if before != "" {
      FindAt(before[1..], c, after);
      assert (before + [c] + after)[1..] == before[1..] + [c] + after;
    }
  }

  /** The target of a link that starts here, if one does. */
  function LinkHere(s: string): (target: Option<string>)
    ensures target.Some? ==> target.value != "" && |target.value| + 4 <= |s|
  {
    if s == "" || s[0] != OPEN_BRACKET then None
    else
      var close := Find(s[1..], CLOSE_BRACKET) + 1;
      if close + 1 >= |s| || s[close + 1] != OPEN_PAREN then None
      else
        var n := Find(s[close + 2..], CLOSE_PAREN);
        if n == 0 || close + 2 + n >= |s| then None else Some(s[close + 2..close + 2 + n])
  }

  /** How much of the text a link that starts here takes up. */
  function LinkLength(s: string): (n: nat)
    requires LinkHere(s).Some?
    ensures 0 < n <= |s|
  {
    Find(s[1..], CLOSE_BRACKET) + 1 + 2 + |LinkHere(s).value| + 1
  }

  /** The targets of all links, from left to right. */
  function Targets(s: string): seq<string>
    decreases |s|
  {
    if s == "" then []
    else if LinkHere(s).Some? then [LinkHere(s).value] + Targets(s[LinkLength(s)..])
    else Targets(s[1..])
  }

  function BeforeTitle(target: string): string {
    if |target| < 2 then target
    else if TITLE_MARK <= target then ""
    else [target[0]] + BeforeTitle(target[1..])
  }

  predicate IsAngle(c: char) {
    c == '<' || c == '>'
  }

  function DropAnglesLeft(s: string): string {
    if s != "" && IsAngle(s[0]) then DropAnglesLeft(s[1..]) else s
  }

  function DropAnglesRight(s: string): string {
    if s != "" && IsAngle(s[|s| - 1]) then DropAnglesRight(s[..|s| - 1]) else s
  }

  /** A target without its title and its angle brackets. */
  function Cleaned(target: string): string {
    DropAnglesRight(DropAnglesLeft(BeforeTitle(target)))
  }

  predicate IsLetter(c: char) {
    'a' <= c <= 'z' || 'A' <= c <= 'Z'
  }

  predicate IsSchemeChar(c: char) {
    IsLetter(c) || '0' <= c <= '9' || c == '+' || c == '.' || c == '-'
  }

  /** A letter, letters, digits and `+.-`, and a colon. */
  predicate HasScheme(target: string) {
    target != "" && IsLetter(target[0]) &&
    exists n | 1 <= n < |target| :: target[n] == ':' && forall i | 1 <= i < n :: IsSchemeChar(target[i])
  }

  /** A link to another site or to the document itself. */
  predicate Elsewhere(target: string) {
    HasScheme(target) || (target != "" && target[0] == '#')
  }

  function PathOf(target: string, tools: Tools): string {
    tools.unquote(target[..Find(target, '#')])
  }

  predicate IsMissing(target: string, tools: Tools) {
    PathOf(target, tools) != "" && !tools.present(PathOf(target, tools))
  }

  /** How many of the targets lead to files. */
  function LocalLinks(targets: seq<string>): nat {
    if targets == [] then 0
    else
      var n := |targets| - 1;
      LocalLinks(targets[..n]) + (if Elsewhere(Cleaned(targets[n])) then 0 else 1)
  }

  function MissingLinks(targets: seq<string>, number: nat, tools: Tools): seq<Finding> {
    if targets == [] then []
    else
      var n := |targets| - 1;
      var target := Cleaned(targets[n]);
      MissingLinks(targets[..n], number, tools)
      + (if !Elsewhere(target) && IsMissing(target, tools) then [MissingLink(number, PathOf(target, tools))] else [])
  }

  /** A link written out is found again, with its target whole, and the search goes on behind it. */
  lemma {:induction false} WrittenLinkFound(before: string, text: string, target: string, after: string)
    requires OPEN_BRACKET !in before && CLOSE_BRACKET !in text && target != "" && CLOSE_PAREN !in target
    ensures Targets(before + "[" + text + "](" + target + ")" + after) == [target] + Targets(after)
  {
    var link := "[" + text + "](" + target + ")" + after;
    assert before + "[" + text + "](" + target + ")" + after == before + link;
    if before == "" {
      assert "" + link == link;
      LinkWritten(text, target, after);
    } else {
      hide Targets;
      WrittenLinkFound(before[1..], text, target, after);
      assert before[1..] + "[" + text + "](" + target + ")" + after == before[1..] + link;
      assert (before + link)[1..] == before[1..] + link;
      TargetsSkip(before + link);
    }
  }

  lemma {:induction false} TargetsSkip(s: string)
    requires s != "" && s[0] != OPEN_BRACKET
    ensures Targets(s) == Targets(s[1..])
  {}

  lemma {:induction false} LinkWritten(text: string, target: string, after: string)
    requires CLOSE_BRACKET !in text && target != "" && CLOSE_PAREN !in target
    ensures Targets("[" + text + "](" + target + ")" + after) == [target] + Targets(after)
  {
    hide Find;
    var link := "[" + text + "](" + target + ")" + after;
    var rest := "(" + target + ")" + after;
    assert link[1..] == text + [CLOSE_BRACKET] + rest;
    FindAt(text, CLOSE_BRACKET, rest);
    var close := |text| + 1;
    assert link[close + 2..] == target + [CLOSE_PAREN] + after;
    FindAt(target, CLOSE_PAREN, after);
    assert link[close + 2..close + 2 + |target|] == target;
    assert LinkHere(link) == Some(target);
    assert link[LinkLength(link)..] == after;
  }

  /** The links counted are the targets that do not lead elsewhere. */
  lemma {:induction false} LinksCounted(targets: seq<string>)
    ensures LocalLinks(targets) == |set i | 0 <= i < |targets| && !Elsewhere(Cleaned(targets[i]))|
  {
    hide Elsewhere, Cleaned;
    var all := set i | 0 <= i < |targets| && !Elsewhere(Cleaned(targets[i]));
    if targets == [] {
      assert all == {};
    } else {
      var n := |targets| - 1;
      LinksCounted(targets[..n]);
      var before := set i | 0 <= i < n && !Elsewhere(Cleaned(targets[..n][i]));
      assert all == before + (if Elsewhere(Cleaned(targets[n])) then {} else {n});
    }
  }

  lemma {:induction false} AnglesLeft(angles: string, s: string)
    requires (forall c | c in angles :: c in "<>") && (s == "" || s[0] !in "<>")
    ensures DropAnglesLeft(angles + s) == s
  {
    if angles == "" {
      assert angles + s == s;
    } else {
      assert angles[0] in angles;
      assert (angles + s)[1..] == angles[1..] + s;
      AnglesLeft(angles[1..], s);
    }
  }

  lemma {:induction false} AnglesRight(s: string, angles: string)
    requires (forall c | c in angles :: c in "<>") && (s == "" || s[|s| - 1] !in "<>")
    ensures DropAnglesRight(s + angles) == s
  {
    if angles == "" {
      assert s + angles == s;
    } else {
      var n := |angles| - 1;
      assert angles[n] in angles;
      assert (s + angles)[..|s + angles| - 1] == s + angles[..n];
      AnglesRight(s, angles[..n]);
    }
  }

  /** No title starts inside the text. */
  ghost predicate Untitled(s: string) {
    forall i | 0 <= i < |s| - 1 :: !(s[i] == ' ' && s[i + 1] == '\"')
  }

  lemma {:induction false} TitleDropped(s: string, title: string)
    requires Untitled(s)
    ensures BeforeTitle(s) == s
    ensures BeforeTitle(s + " \"" + title) == s
  {
    if s == "" {
      assert s + " \"" + title == TITLE_MARK + title;
    } else {
      TitleDropped(s[1..], title);
      assert (s + " \"" + title)[1..] == s[1..] + " \"" + title;
    }
  }

  /** A target is cleaned of the title behind it and of the angle brackets around it, and of nothing else. */
  lemma CleanedIs(left: string, core: string, right: string, title: string)
    requires (forall c | c in left + right :: c in "<>") && Untitled(left + core + right)
    requires core == "" ==> right == ""
    requires core != "" ==> core[0] !in "<>" && core[|core| - 1] !in "<>"
    ensures Cleaned(left + core + right) == core
    ensures Cleaned(left + core + right + " \"" + title) == core
  {
    hide BeforeTitle;
    TitleDropped(left + core + right, title);
    assert forall c | c in left || c in right :: c in left + right;
    assert left + core + right == left + (core + right);
    AnglesLeft(left, core + right);
    AnglesRight(core, right);
  }

  /** A name of letters, digits and `+.-` that starts with a letter, before a colon, leads elsewhere, and so does
      a `#`; a target without a colon leads to a file unless it starts with a `#`. */
  lemma ElsewhereIs(target: string)
    ensures target != "" && target[0] == '#' ==> Elsewhere(target)
    ensures ':' !in target && (target == "" || target[0] != '#') ==> !Elsewhere(target)
  {
  }

  /** A scheme is what stands before the first colon. */
  lemma SchemeIs(name: string, rest: string)
    requires name != "" && ':' !in name
    ensures HasScheme(name + ":" + rest)
       <==> ('a' <= name[0] <= 'z' || 'A' <= name[0] <= 'Z')
            && forall c | c in name :: 'a' <= c <= 'z' || 'A' <= c <= 'Z' || '0' <= c <= '9' || c in "+.-"
  {
    var target := name + ":" + rest;
    var n := |name|;
    assert target[n] == ':';
    assert forall i | 0 <= i < n :: target[i] == name[i];
    if HasScheme(target) {
      var m :| 1 <= m < |target| && target[m] == ':' && forall i | 1 <= i < m :: IsSchemeChar(target[i]);
      assert m <= n;
      assert m == n;
      forall c | c in name ensures IsSchemeChar(c) {
        var i :| 0 <= i < n && name[i] == c;
        assert target[i] == c;
      }
    }
    if IsLetter(name[0]) && forall c | c in name :: IsSchemeChar(c) {
      assert forall i | 1 <= i < n :: target[i] in name;
    }
  }

  /** The path of a target is the unquoted text before its first `#`. */
  lemma PathIs(path: string, fragment: string, tools: Tools)
    requires '#' !in path
    ensures PathOf(path, tools) == tools.unquote(path)
    ensures PathOf(path + "#" + fragment, tools) == tools.unquote(path)
  {
    FindAt(path, '#', fragment);
    assert (path + "#" + fragment)[..|path|] == path;
    assert path[..|path|] == path;
  }

  // ----- Tables -----

  predicate IsRow(line: string) {
    line != "" && line[0] == '|' && line[|line| - 1] == '|'
  }

  /** How many `|` in the line have no backslash before them. */
  function Bars(line: string): nat {
    if line == "" then 0
    else
      var n := |line| - 1;
      Bars(line[..n]) + (if line[n] == '|' && (n == 0 || line[n - 1] != '\\') then 1 else 0)
  }

  function Cells(line: string): int {
    Bars(line) + 1 - 2
  }

  /** A row is one bar, or text between two. */
  lemma RowIs(line: string)
    ensures IsRow(line) <==> line == "|" || exists text :: line == "|" + text + "|"
  {
    if IsRow(line) && line != "|" {
      assert line == "|" + line[1..|line| - 1] + "|";
    }
  }

  /** Every bar in the text has a backslash before it, and the bar behind the text has none. */
  ghost predicate CellText(cell: string) {
    && (forall i | 0 <= i < |cell| && cell[i] == '|' :: i > 0 && cell[i - 1] == '\\')
    && (cell != "" ==> cell[|cell| - 1] != '\\')
  }

  /** A table row with these cells. */
  ghost function RowText(cells: seq<string>): string {
    if cells == [] then "|" else RowText(cells[..|cells| - 1]) + cells[|cells| - 1] + "|"
  }

  lemma {:induction false} BarsInCell(before: string, cell: string)
    requires forall i | 0 <= i < |cell| && cell[i] == '|' :: i > 0 && cell[i - 1] == '\\'
    ensures Bars(before + cell) == Bars(before)
  {
    if cell == "" {
      assert before + cell == before;
    } else {
      var n := |cell| - 1;
      BarsInCell(before, cell[..n]);
      var all := before + cell;
      assert all[..|all| - 1] == before + cell[..n];
      assert all[|all| - 1] == cell[n] && (n > 0 ==> all[|all| - 2] == cell[n - 1]);
    }
  }

  lemma {:induction false} OneMoreCell(before: string, cell: string)
    requires IsRow(before) && CellText(cell)
    ensures IsRow(before + cell + "|") && Bars(before + cell + "|") == Bars(before) + 1
  {
    BarsInCell(before, cell);
    hide Bars, CellText;
    var all := before + cell + "|";
    var n := |all| - 1;
    assert all[..n] == before + cell && all[n] == '|' && all[0] == before[0];
    assert all[n - 1] == if cell != "" then cell[|cell| - 1] else before[|before| - 1];
    LastBar(all);
  }

  lemma {:induction false} LastBar(s: string)
    requires |s| >= 2 && s[|s| - 1] == '|' && s[|s| - 2] != '\\'
    ensures Bars(s) == Bars(s[..|s| - 1]) + 1
  {}

  /** A row written with n cells is a row, and n cells are counted in it. */
  lemma {:induction false} CellsCounted(cells: seq<string>)
    requires forall i | 0 <= i < |cells| :: CellText(cells[i])
    ensures IsRow(RowText(cells)) && Cells(RowText(cells)) == |cells|
  {
    if cells == [] {
      assert Bars("|") == Bars("") + 1;
    } else {
      hide Bars, IsRow, CellText;
      CellsCounted(cells[..|cells| - 1]);
      OneMoreCell(RowText(cells[..|cells| - 1]), cells[|cells| - 1]);
    }
  }

  predicate RowPiece(piece: Piece) {
    piece.Prose? && IsRow(piece.line)
  }

  /** The first row of the table that row `k` belongs to. */
  function TableHead(pieces: seq<Piece>, k: nat): (head: nat)
    requires k < |pieces| && RowPiece(pieces[k])
    ensures head <= k
    ensures forall j :: head <= j <= k ==> RowPiece(pieces[j])
    ensures head > 0 ==> !RowPiece(pieces[head - 1])
  {
    if k > 0 && RowPiece(pieces[k - 1]) then TableHead(pieces, k - 1) else k
  }

  /** The width the last table is held to: that of its first row. None unless the last piece is a row. */
  function TableWidthOf(pieces: seq<Piece>): Option<int> {
    var k := |pieces| - 1;
    if pieces == [] || !RowPiece(pieces[k]) then None
    else Some(Cells(pieces[TableHead(pieces, k)].line))
  }

  lemma {:induction false} HeadPrefix(pieces: seq<Piece>, piece: Piece, k: nat)
    requires k < |pieces| && RowPiece(pieces[k])
    ensures TableHead(pieces + [piece], k) == TableHead(pieces, k)
  {
    hide IsRow;
    if k > 0 && RowPiece(pieces[k - 1]) {
      HeadPrefix(pieces, piece, k - 1);
    }
  }

  /** A row is held to the width the row before it was held to; the first row of a table sets it. */
  lemma WidthNext(pieces: seq<Piece>, piece: Piece)
    ensures TableWidthOf(pieces + [piece])
         == if !RowPiece(piece) then None
            else if TableWidthOf(pieces).None? then Some(Cells(piece.line))
            else TableWidthOf(pieces)
  {
    hide IsRow, Cells;
    var k := |pieces|;
    if RowPiece(piece) && k > 0 && RowPiece(pieces[k - 1]) {
      HeadPrefix(pieces, piece, k - 1);
    }
  }

  // ----- Code and lines -----

  /** The lines of a text, cut at its newlines. */
  function SplitLines(s: string): seq<string>
    decreases |s|
  {
    var n := Find(s, '\n');
    if n == |s| then [s] else [s[..n]] + SplitLines(s[n + 1..])
  }

  /** No line holds a newline. */
  ghost predicate OneLiners(lines: seq<string>) {
    forall i | 0 <= i < |lines| :: '\n' !in lines[i]
  }

  lemma {:induction false} SplitFirst(line: string, rest: string)
    requires '\n' !in line
    ensures SplitLines(line) == [line]
    ensures SplitLines(line + "\n" + rest) == [line] + SplitLines(rest)
  {
    var all := line + "\n" + rest;
    FindAt(line, '\n', rest);
    assert all[..|line|] == line && all[|line| + 1..] == rest;
  }

  /** Cutting the code of a block at its newlines gives its lines back. */
  lemma {:induction false} JoinedSplits(body: seq<string>)
    requires body != [] && OneLiners(body)
    ensures SplitLines(Joined(body)) == body
  {
    hide SplitLines, Find;
    if |body| == 1 {
      SplitFirst(body[0], "");
      assert Joined(body) == body[0];
    } else {
      JoinedSplits(body[1..]);
      SplitFirst(body[0], Joined(body[1..]));
    }
  }

  /** Any text is the code of the lines it is cut into. */
  lemma {:induction false} SplitJoins(s: string)
    ensures SplitLines(s) != [] && OneLiners(SplitLines(s))
    ensures Joined(SplitLines(s)) == s
    decreases |s|
  {
    hide Find;
    var n := Find(s, '\n');
    if n < |s| {
      SplitJoins(s[n + 1..]);
      hide SplitLines;
      JoinedNext(s[..n], SplitLines(s[n + 1..]));
      assert s == s[..n] + "\n" + s[n + 1..];
    }
  }

  lemma {:induction false} JoinedNext(line: string, rest: seq<string>)
    requires rest != [] && '\n' !in line && OneLiners(rest)
    ensures Joined([line] + rest) == line + "\n" + Joined(rest) && OneLiners([line] + rest)
  {
    assert ([line] + rest)[1..] == rest;
  }

  // ----- What the lesson checker counts -----

  function BlockFindings(block: Piece, number: nat, tools: Tools): seq<Finding>
    requires block.Block?
  {
    var language, code := LanguageOf(block.opening), Joined(block.body);
    if language == "python" && !tools.python(code) then [BadPython(number)]
    else if IsShell(language) && !tools.shell(code) then [BadShell(number)]
    else []
  }

  /** White space at the end, a width other than the table's, and links that lead nowhere. */
  function LineFindings(line: string, number: nat, width: Option<int>, tools: Tools): seq<Finding> {
    (if line != "" && IsSpace(line[|line| - 1]) then [TrailingSpace(number)] else [])
    + (if width.Some? && Cells(line) != width.value then [TableWidth(number, Cells(line), width.value)] else [])
    + MissingLinks(Targets(line), number, tools)
  }

  /** What is wrong with the last of these pieces. */
  function LastFindings(pieces: seq<Piece>, tools: Tools): seq<Finding>
    requires pieces != []
  {
    var most, last := pieces[..|pieces| - 1], pieces[|pieces| - 1];
    match last
    case Prose(line) => LineFindings(line, NextNumber(most), TableWidthOf(pieces), tools)
    case Block(_, _, _) => BlockFindings(last, NextNumber(most), tools)
  }

  function FindingsOf(pieces: seq<Piece>, tools: Tools): seq<Finding> {
    if pieces == [] then []
    else FindingsOf(pieces[..|pieces| - 1], tools) + LastFindings(pieces, tools)
  }

  /** The block's code, when it is Python that parses. */
  function SnippetIn(piece: Piece, number: nat, tools: Tools): seq<Snippet> {
    match piece
    case Prose(_) => []
    case Block(opening, body, _) =>
      if LanguageOf(opening) == "python" && tools.python(Joined(body)) then [Snippet(number, Joined(body))] else []
  }

  function SnippetsOf(pieces: seq<Piece>, tools: Tools): seq<Snippet> {
    if pieces == [] then []
    else
      var most, last := pieces[..|pieces| - 1], pieces[|pieces| - 1];
      SnippetsOf(most, tools) + SnippetIn(last, NextNumber(most), tools)
  }

  function ShellBlocks(pieces: seq<Piece>): nat {
    if pieces == [] then 0
    else
      var most, last := pieces[..|pieces| - 1], pieces[|pieces| - 1];
      ShellBlocks(most) + (if last.Block? && IsShell(LanguageOf(last.opening)) then 1 else 0)
  }

  /** The rows that do not follow another row. */
  function Tables(pieces: seq<Piece>): nat {
    if pieces == [] then 0
    else
      var most, last := pieces[..|pieces| - 1], pieces[|pieces| - 1];
      Tables(most) + (if RowPiece(last) && (most == [] || !RowPiece(most[|most| - 1])) then 1 else 0)
  }

  function Links(pieces: seq<Piece>): nat {
    if pieces == [] then 0
    else
      var most, last := pieces[..|pieces| - 1], pieces[|pieces| - 1];
      Links(most) + (if last.Prose? then LocalLinks(Targets(last.line)) else 0)
  }

  /** Everything the checker has counted once it has read these pieces. */
  datatype Tally = Tally(snippets: seq<Snippet>, shells: nat, tables: nat, links: nat, errors: seq<Finding>,
                         outside: seq<Numbered>)

  function TallyOf(pieces: seq<Piece>, tools: Tools): Tally {
    Tally(SnippetsOf(pieces, tools), ShellBlocks(pieces), Tables(pieces), Links(pieces), FindingsOf(pieces, tools),
          ProseOf(pieces))
  }

  lemma BlockTally(pieces: seq<Piece>, block: Piece, tools: Tools)
    requires block.Block?
    ensures TableWidthOf(pieces + [block]) == None
    ensures TallyOf(pieces + [block], tools) ==
            var t, number := TallyOf(pieces, tools), NextNumber(pieces);
            Tally(t.snippets + SnippetIn(block, number, tools),
                  if IsShell(LanguageOf(block.opening)) then t.shells + 1 else t.shells,
                  t.tables, t.links, t.errors + BlockFindings(block, number, tools), t.outside)
  {
    hide IsShell, LanguageOf, SnippetIn, BlockFindings, RenderPieces, TableHead;
    var all := pieces + [block];
    assert all[..|pieces|] == pieces && all[|pieces|] == block;
    ProseOneMore(pieces, block);
  }

  lemma {:induction false} ProseTally(pieces: seq<Piece>, line: string, tools: Tools)
    ensures TallyOf(pieces + [Prose(line)], tools) ==
            var t, number := TallyOf(pieces, tools), NextNumber(pieces);
            Tally(t.snippets, t.shells,
                  if IsRow(line) && TableWidthOf(pieces).None? then t.tables + 1 else t.tables,
                  t.links + LocalLinks(Targets(line)),
                  t.errors + LineFindings(line, number, TableWidthOf(pieces + [Prose(line)]), tools),
                  t.outside + [Numbered(number, line)])
  {
    hide IsShell, LanguageOf, LineFindings, RenderPieces, IsRow, LocalLinks, Targets, Cells;
    var all := pieces + [Prose(line)];
    assert all[..|pieces|] == pieces && all[|pieces|] == Prose(line);
    ProseOneMore(pieces, Prose(line));
    assert SnippetsOf(all, tools) == SnippetsOf(pieces, tools) + [];
  }

  lemma {:induction false} StripRightShorter(s: string)
    ensures |StripRight(s)| <= |s|
    ensures s != StripRight(s) <==> s != "" && IsSpace(s[|s| - 1])
  {
    hide IsSpace;
    if s != "" {
      StripRightShorter(s[..|s| - 1]);
    }
  }

  /** The state of the checker that has read `doc`. */
  ghost predicate Standing(doc: Document, fence: Option<string>, body: seq<string>, language: string, start: nat) {
    && Follows(doc, fence)
    && (doc.unclosed.Some? ==>
          && body == doc.unclosed.value.body
          && language == LanguageOf(doc.unclosed.value.opening)
          && start == NextNumber(doc.pieces))
  }

  lemma BodyLine(lines: seq<string>, i: nat, fence: Option<string>, body: seq<string>, language: string, start: nat)
    requires i < |lines| && Standing(Read(lines[..i]), fence, body, language, start)
    requires fence.Some? && fence.value != "" && !Closes(lines[i], fence.value)
    ensures Standing(Read(lines[..i + 1]), fence, body + [lines[i]], language, start)
    ensures Read(lines[..i + 1]).pieces == Read(lines[..i]).pieces
  {
    hide Closes, Read, MatchFence, WellFormed, NextNumber, LanguageOf;
    FenceNext(lines, i, fence);
    ReadNext(lines, i);
  }

  lemma OpeningLine(lines: seq<string>, i: nat, body: seq<string>, language: string, start: nat)
    requires i < |lines| && Standing(Read(lines[..i]), None, body, language, start)
    requires MatchFence(lines[i]).Some?
    ensures Standing(Read(lines[..i + 1]), Some(MatchFence(lines[i]).value.fence), [],
                     Strip(MatchFence(lines[i]).value.rest), i + 1)
    ensures Read(lines[..i + 1]).pieces == Read(lines[..i]).pieces
  {
    hide Closes, Read, MatchFence, WellFormed, RenderPieces, Strip;
    FenceNext(lines, i, None);
    ReadNext(lines, i);
  }

  lemma OutsideLine(lines: seq<string>, i: nat, body: seq<string>, language: string, start: nat)
    requires i < |lines| && Standing(Read(lines[..i]), None, body, language, start)
    requires MatchFence(lines[i]).None?
    ensures Standing(Read(lines[..i + 1]), None, body, language, start)
    ensures Read(lines[..i + 1]).pieces == Read(lines[..i]).pieces + [Prose(lines[i])]
    ensures NextNumber(Read(lines[..i]).pieces) == i + 1
  {
    hide Closes, Read, MatchFence, WellFormed, RenderPieces;
    FenceNext(lines, i, None);
    ReadNext(lines, i);
  }

  lemma ClosingLine(lines: seq<string>, i: nat, fence: Option<string>, body: seq<string>, language: string,
                    start: nat) returns (block: Piece)
    requires i < |lines| && Standing(Read(lines[..i]), fence, body, language, start)
    requires fence.Some? && Closes(lines[i], fence.value)
    ensures Standing(Read(lines[..i + 1]), None, body, language, start)
    ensures block.Block? && block.body == body && LanguageOf(block.opening) == language
    ensures Read(lines[..i + 1]).pieces == Read(lines[..i]).pieces + [block]
    ensures NextNumber(Read(lines[..i]).pieces) == start
  {
    hide Closes, Read, MatchFence, WellFormed, NextNumber, LanguageOf;
    FenceNext(lines, i, fence);
    ReadNext(lines, i);
    var u := Read(lines[..i]).unclosed.value;
    block := Block(u.opening, body, lines[i]);
  }

  /** The loop over a line's links. */
  method CheckLinks(line: string, number: nat, tools: Tools) returns (links: nat, errors: seq<Finding>)
    ensures links == LocalLinks(Targets(line))
    ensures errors == MissingLinks(Targets(line), number, tools)
  {
    hide Targets, Cleaned, Elsewhere, PathOf;
    var targets := Targets(line);
    links, errors := 0, [];
    for i := 0 to |targets|
      invariant links == LocalLinks(targets[..i]) && errors == MissingLinks(targets[..i], number, tools)
    {
      assert targets[..i + 1][..i] == targets[..i];
      var target := Cleaned(targets[i]);
      if Elsewhere(target) {
        continue;
      }
      links := links + 1;
      var path := PathOf(target, tools);
      if path != "" && !tools.present(path) {
        errors := errors + [MissingLink(number, path)];
      }
    }
    assert targets[..|targets|] == targets;
  }

  /** How often the word occurs, occurrences that overlap counted once. */
  function Occurrences(s: string, word: string): nat
    requires word != ""
    decreases |s|
  {
    if |s| < |word| then 0
    else if word <= s then 1 + Occurrences(s[|word|..], word)
    else Occurrences(s[1..], word)
  }

  lemma {:induction false} OccurrencesSkip(s: string, word: string, n: nat)
    requires word != "" && n <= |s|
    requires forall i | 0 <= i < n :: !(word <= s[i..])
    ensures Occurrences(s, word) == Occurrences(s[n..], word)
    decreases n
  {
    assert s[0..] == s;
    if n > 0 {
      var rest := s[1..];
      forall i | 0 <= i < n - 1 ensures rest[i..] == s[i + 1..] {}
      OccurrencesSkip(rest, word, n - 1);
      assert rest[n - 1..] == s[n..];
    }
  }

  /** The first occurrence counts one, and the count goes on behind it; without any, it is zero. */
  lemma {:induction false} OccurrencesAre(s: string, word: string, n: nat)
    requires word != "" && n <= |s|
    requires forall i | 0 <= i < n :: !(word <= s[i..])
    ensures word <= s[n..] ==> Occurrences(s, word) == 1 + Occurrences(s[n + |word|..], word)
    ensures n == |s| ==> Occurrences(s, word) == 0
  {
    OccurrencesSkip(s, word, n);
    if word <= s[n..] {
      assert s[n..][|word|..] == s[n + |word|..];
    }
  }

  function OccurrencesIn(lines: seq<string>, word: string): nat
    requires word != ""
  {
    if lines == [] then 0
    else OccurrencesIn(lines[..|lines| - 1], word) + Occurrences(lines[|lines| - 1], word)
  }

  lemma {:induction false} WordWithin(a: string, b: string, word: string)
    requires word != "" && '\n' !in word
    ensures Occurrences(a + "\n" + b, word) == Occurrences(a, word) + Occurrences(b, word)
    decreases |a|
  {
    var all := a + "\n" + b;
    WordStays(a, b, word);
    if a == "" {
      assert all[1..] == b;
    } else if word <= a {
      WordWithin(a[|word|..], b, word);
      assert all[|word|..] == a[|word|..] + "\n" + b;
    } else {
      WordWithin(a[1..], b, word);
      assert all[1..] == a[1..] + "\n" + b;
    }
  }

  /** A word without a newline is not found across one. */
  lemma {:induction false} WordStays(a: string, b: string, word: string)
    requires word != "" && '\n' !in word
    ensures word <= a + "\n" + b <==> word <= a
  {
    var all := a + "\n" + b;
    if word <= all {
      assert all[|a|] == '\n' && word == all[..|word|];
      assert |word| <= |a|;
      assert word == a[..|word|];
    }
  }

  lemma {:induction false} OccurrencesFirst(lines: seq<string>, word: string)
    requires word != "" && lines != []
    ensures OccurrencesIn(lines, word) == Occurrences(lines[0], word) + OccurrencesIn(lines[1..], word)
  {
    hide Occurrences;
    if |lines| > 1 {
      OccurrencesFirst(lines[..|lines| - 1], word);
      assert lines[..|lines| - 1][1..] == lines[1..][..|lines| - 2];
    }
  }

  /** A word without a newline occurs in a text as often as in its lines together. */
  lemma {:induction false} OccurrencesByLine(lines: seq<string>, word: string)
    requires word != "" && '\n' !in word
    ensures OccurrencesIn(lines, word) == Occurrences(Joined(lines), word)
  {
    hide Occurrences;
    if lines == [] {
      OccurrencesAre("", word, 0);
    } else {
      OccurrencesFirst(lines, word);
      OccurrencesByLine(lines[1..], word);
      if |lines| > 1 {
        WordWithin(lines[0], Joined(lines[1..]), word);
      }
    }
  }

  /** The tags balance exactly when the source holds as many of the one as of the other. */
  lemma {:induction false} BalancedExactly(lines: seq<string>)
    ensures DetailsBalanced(lines) <==> Occurrences(Joined(lines), "<details>") == Occurrences(Joined(lines), "</details>")
  {
    hide Occurrences;
    OccurrencesByLine(lines, "<details>");
    OccurrencesByLine(lines, "</details>");
  }

  predicate DetailsBalanced(lines: seq<string>) {
    OccurrencesIn(lines, "<details>") == OccurrencesIn(lines, "</details>")
  }

  /** One closed block: a snippet to run later, a shell block, or a finding. */
  method CheckBlock(language: string, body: seq<string>, start: nat, tools: Tools, ghost block: Piece)
    returns (snippets: seq<Snippet>, shells: nat, errors: seq<Finding>)
    requires block.Block? && block.body == body && LanguageOf(block.opening) == language
    ensures snippets == SnippetIn(block, start, tools) && errors == BlockFindings(block, start, tools)
    ensures shells == if IsShell(LanguageOf(block.opening)) then 1 else 0
  {
    hide LanguageOf, Joined;
    snippets, shells, errors := [], 0, [];
    var code := Joined(body);
    if language == "python" {
      if tools.python(code) {
        snippets := [Snippet(start, code)];
      } else {
        errors := [BadPython(start)];
      }
    } else if IsShell(language) {
      shells := 1;
      if !tools.shell(code) {
        errors := [BadShell(start)];
      }
    }
  }

  /** One line outside fences, with the width of the table before it. */
  method CheckLine(line: string, number: nat, before: Option<int>, tools: Tools)
    returns (width: Option<int>, tables: nat, links: nat, errors: seq<Finding>)
    ensures width == if !IsRow(line) then None else if before.None? then Some(Cells(line)) else before
    ensures tables == if IsRow(line) && before.None? then 1 else 0
    ensures links == LocalLinks(Targets(line))
    ensures errors == LineFindings(line, number, width, tools)
  {
    hide LocalLinks, Targets, MissingLinks, Cells, IsRow;
    StripRightShorter(line);
    tables, errors := 0, [];
    if line != StripRight(line) {
      errors := errors + [TrailingSpace(number)];
    }
    width := None;
    if IsRow(line) {
      width := before;
      var cells := Cells(line);
      if width.None? {
        tables := tables + 1;
        width := Some(cells);
      } else if width.value != cells {
        errors := errors + [TableWidth(number, cells, width.value)];
      }
    }
    var missing;
    links, missing := CheckLinks(line, number, tools);
    errors := errors + missing;
  }

  /** The check of one document. `outside` names the lines the loop treats as prose. */
  method Check(lines: seq<string>, tools: Tools)
    returns (snippets: seq<Snippet>, bashBlocks: nat, tables: nat, links: nat, errors: seq<Finding>,
             ghost outside: seq<Numbered>)
    ensures outside == ProseOf(Read(lines).pieces)
    ensures var pieces, unclosed := Read(lines).pieces, Read(lines).unclosed;
            && snippets == SnippetsOf(pieces, tools)
            && bashBlocks == ShellBlocks(pieces)
            && tables == Tables(pieces)
            && links == Links(pieces)
            && errors == FindingsOf(pieces, tools)
                         + (if unclosed.Some? then [UnclosedFence(NextNumber(pieces))] else [])
                         + (if DetailsBalanced(lines) then [] else [UnbalancedDetails])
    ensures OneLiners(lines) ==> AreSnippets(snippets, Read(lines).pieces, tools)
    ensures forall e :: e in errors <==>
              || (exists k :: IsFinding(Read(lines).pieces, k, e, tools))
              || (Read(lines).unclosed.Some? && e == UnclosedFence(NextNumber(Read(lines).pieces)))
              || (!DetailsBalanced(lines) && e == UnbalancedDetails)
  {
    hide *;
    StartStands(lines, tools);
    snippets, bashBlocks, tables, links, errors, outside := [], 0, 0, 0, [], [];
    var fence: Option<string> := None;
    var body: seq<string> := [];
    var width: Option<int> := None;
    var language := "";
    var start := 0;
    for i := 0 to |lines|
      invariant Standing(Read(lines[..i]), fence, body, language, start)
      invariant width == TableWidthOf(Read(lines[..i]).pieces)
      invariant Tally(snippets, bashBlocks, tables, links, errors, outside) == TallyOf(Read(lines[..i]).pieces, tools)
    {
      var line := lines[i];
      var number := i + 1;
      var marker := MatchFence(line);
      ghost var before := Read(lines[..i]).pieces;
      if fence.Some? {
        FenceHeld(Read(lines[..i]), fence, body, language, start);
        ClosesMeans(line, fence.value);
        if marker.Some? && marker.value.fence[0] == fence.value[0]
           && |marker.value.fence| >= |fence.value| && Strip(marker.value.rest) == "" {
          ghost var block := ClosingLine(lines, i, fence, body, language, start);
          BlockTally(before, block, tools);
          var newSnippets, newShells, newErrors := CheckBlock(language, body, start, tools, block);
          snippets, bashBlocks, errors := snippets + newSnippets, bashBlocks + newShells, errors + newErrors;
          fence := None;
          width := None;
        } else {
          BodyLine(lines, i, fence, body, language, start);
          body := body + [line];
        }
      } else if marker.Some? {
        OpeningLine(lines, i, body, language, start);
        fence, language, start := Some(marker.value.fence), Strip(marker.value.rest), number;
        body := [];
      } else {
        OutsideLine(lines, i, body, language, start);
        ProseTally(before, line, tools);
        WidthNext(before, Prose(line));
        RowMeans(line);
        outside := outside + [Numbered(number, line)];
        var newTables, newLinks, newErrors;
        width, newTables, newLinks, newErrors := CheckLine(line, number, width, tools);
        tables, links, errors := tables + newTables, links + newLinks, errors + newErrors;
      }
    }
    TallyMeans(Read(lines).pieces, tools, Tally(snippets, bashBlocks, tables, links, errors, outside));
    UnclosedMeans(Read(lines), fence, body, language, start);
    if fence.Some? {
      errors := errors + [UnclosedFence(start)];
    }
    if !DetailsBalanced(lines) {
      errors := errors + [UnbalancedDetails];
    }
    ErrorsExactly(lines, tools, errors);
    if OneLiners(lines) {
      SnippetsExactly(lines, tools);
    }
  }

  // ----- What the reports say of the lines -----

  lemma {:induction false} RenderedPrefix(pieces: seq<Piece>, k: nat)
    requires k <= |pieces|
    ensures RenderPieces(pieces[..k]) <= RenderPieces(pieces)
  {
    hide RenderPiece;
    if k < |pieces| {
      var most := pieces[..|pieces| - 1];
      RenderedPrefix(most, k);
      assert most[..k] == pieces[..k];
    } else {
      assert pieces[..k] == pieces;
    }
  }

  /** Where a block stands: its number is that of its opening line, and its body and closing line follow. */
  lemma BlockLines(lines: seq<string>, k: nat)
    requires k < |Read(lines).pieces| && Read(lines).pieces[k].Block?
    ensures var block, start := Read(lines).pieces[k], NextNumber(Read(lines).pieces[..k]);
            && start + |block.body| < |lines|
            && lines[start - 1] == block.opening
            && lines[start..start + |block.body|] == block.body
            && lines[start + |block.body|] == block.closing
  {
    hide Read, RenderPieces, WellFormed;
    var pieces := Read(lines).pieces;
    var block := pieces[k];
    ReadThenRender(lines);
    RenderedPrefix(pieces, k + 1);
    RenderOneMore(pieces[..k], block);
    assert pieces[..k + 1] == pieces[..k] + [block];
    BlockWithin(RenderPieces(pieces[..k]), block, lines);
  }

  lemma BlockWithin(before: seq<string>, block: Piece, lines: seq<string>)
    requires block.Block? && before + RenderPiece(block) <= lines
    ensures var start := |before| + 1;
            && start + |block.body| < |lines|
            && lines[start - 1] == block.opening
            && lines[start..start + |block.body|] == block.body
            && lines[start + |block.body|] == block.closing
  {
    var start := |before| + 1;
    var all := before + RenderPiece(block);
    assert all[start - 1] == RenderPiece(block)[0];
    assert all[start..start + |block.body|] == block.body;
    assert all[start + |block.body|] == RenderPiece(block)[|block.body| + 1];
    assert all == lines[..|all|];
  }

  /** The snippet is piece `k`: a Python block that parses, by its line number, its code cut into its body. */
  ghost predicate IsSnippet(pieces: seq<Piece>, k: int, snippet: Snippet, tools: Tools) {
    && 0 <= k < |pieces| && pieces[k].Block?
    && LanguageOf(pieces[k].opening) == "python"
    && snippet.start == NextNumber(pieces[..k])
    && (if pieces[k].body == [] then snippet.code == "" else SplitLines(snippet.code) == pieces[k].body)
    && tools.python(snippet.code)
  }

  ghost predicate BodiesOneLiners(pieces: seq<Piece>) {
    forall k | 0 <= k < |pieces| && pieces[k].Block? :: OneLiners(pieces[k].body)
  }

  /** A code is the join of these lines exactly when it is cut into them. */
  lemma {:induction false} JoinedExactly(body: seq<string>, code: string)
    requires OneLiners(body)
    ensures code == Joined(body) <==> if body == [] then code == "" else SplitLines(code) == body
  {
    if body != [] {
      JoinedSplits(body);
      SplitJoins(code);
    }
  }

  lemma LastSnippet(pieces: seq<Piece>, snippet: Snippet, tools: Tools)
    requires pieces != [] && BodiesOneLiners(pieces)
    ensures var n := |pieces| - 1;
            snippet in SnippetIn(pieces[n], NextNumber(pieces[..n]), tools) <==> IsSnippet(pieces, n, snippet, tools)
  {
    hide Joined, SplitLines, LanguageOf, RenderPieces;
    var last := pieces[|pieces| - 1];
    if last.Block? {
      JoinedExactly(last.body, snippet.code);
    }
  }

  lemma {:induction false} SnippetsOfExactly(pieces: seq<Piece>, snippet: Snippet, tools: Tools)
    requires BodiesOneLiners(pieces)
    ensures snippet in SnippetsOf(pieces, tools) <==> exists k :: IsSnippet(pieces, k, snippet, tools)
  {
    hide SnippetIn, NextNumber, LanguageOf, SplitLines;
    if pieces != [] {
      var n := |pieces| - 1;
      var most := pieces[..n];
      SnippetsOfExactly(most, snippet, tools);
      LastSnippet(pieces, snippet, tools);
      forall k | 0 <= k < n ensures IsSnippet(most, k, snippet, tools) <==> IsSnippet(pieces, k, snippet, tools) {
        assert most[..k] == pieces[..k] && most[k] == pieces[k];
      }
    }
  }

  /** The snippets stand in the order of their lines. */
  ghost predicate InLineOrder(snippets: seq<Snippet>) {
    forall i, j | 0 <= i < j < |snippets| :: snippets[i].start < snippets[j].start
  }

  lemma {:induction false} SnippetsOrdered(pieces: seq<Piece>, tools: Tools)
    ensures InLineOrder(SnippetsOf(pieces, tools))
    ensures forall i | 0 <= i < |SnippetsOf(pieces, tools)| :: SnippetsOf(pieces, tools)[i].start < NextNumber(pieces)
  {
    hide LanguageOf, Joined;
    if pieces != [] {
      SnippetsOrdered(pieces[..|pieces| - 1], tools);
    }
  }

  /** The snippets are the Python blocks that parse, in line order, each with its lines as code. */
  ghost predicate AreSnippets(snippets: seq<Snippet>, pieces: seq<Piece>, tools: Tools) {
    && InLineOrder(snippets)
    && forall snippet :: snippet in snippets <==> exists k :: IsSnippet(pieces, k, snippet, tools)
  }

  lemma {:induction false} SnippetsExactly(lines: seq<string>, tools: Tools)
    requires OneLiners(lines)
    ensures AreSnippets(SnippetsOf(Read(lines).pieces, tools), Read(lines).pieces, tools)
  {
    hide Read, SnippetsOf, IsSnippet, NextNumber;
    var pieces := Read(lines).pieces;
    SnippetsOrdered(pieces, tools);
    forall k | 0 <= k < |pieces| && pieces[k].Block? ensures OneLiners(pieces[k].body) {
      BlockLines(lines, k);
      var start := NextNumber(pieces[..k]);
      assert forall i | 0 <= i < |pieces[k].body| :: pieces[k].body[i] == lines[start..start + |pieces[k].body|][i];
    }
    forall snippet {
      SnippetsOfExactly(pieces, snippet, tools);
    }
  }

  /** The target leads to this path, which does not exist. */
  ghost predicate LinkMissing(target: string, path: string, tools: Tools) {
    !Elsewhere(Cleaned(target)) && path == PathOf(Cleaned(target), tools) && path != "" && !tools.present(path)
  }

  ghost predicate SomeMissing(targets: seq<string>, path: string, tools: Tools) {
    exists i | 0 <= i < |targets| :: LinkMissing(targets[i], path, tools)
  }

  /** The finding is about piece `k`. */
  ghost predicate IsFinding(pieces: seq<Piece>, k: int, e: Finding, tools: Tools) {
    && 0 <= k < |pieces|
    && var number := NextNumber(pieces[..k]);
       match pieces[k]
       case Prose(line) =>
         (match e
          case TrailingSpace(at) => at == number && line != "" && IsSpace(line[|line| - 1])
          case TableWidth(at, found, expected) =>
            && at == number && RowPiece(pieces[k]) && found == Cells(line) != expected
            && expected == Cells(pieces[TableHead(pieces, k)].line)
          case MissingLink(at, path) => at == number && SomeMissing(Targets(line), path, tools)
          case _ => false)
       case Block(opening, body, _) =>
         (match e
          case BadPython(at) => at == number && LanguageOf(opening) == "python" && !tools.python(Joined(body))
          case BadShell(at) => at == number && LanguageOf(opening) in ["bash", "sh"] && !tools.shell(Joined(body))
          case _ => false)
  }

  lemma {:induction false} MissingExactly(targets: seq<string>, number: nat, tools: Tools, e: Finding)
    ensures e in MissingLinks(targets, number, tools)
       <==> e.MissingLink? && e.number == number && SomeMissing(targets, e.path, tools)
  {
    hide Elsewhere, Cleaned, PathOf;
    if targets != [] {
      MissingExactly(targets[..|targets| - 1], number, tools, e);
    }
  }

  lemma {:induction false} HeadOfPrefix(pieces: seq<Piece>, m: nat, k: nat)
    requires k < m <= |pieces| && RowPiece(pieces[k])
    ensures TableHead(pieces[..m], k) == TableHead(pieces, k)
  {
    hide RowPiece;
    if k > 0 && RowPiece(pieces[k - 1]) {
      HeadOfPrefix(pieces, m, k - 1);
    }
  }

  lemma {:induction false} LineFinding(line: string, number: nat, width: Option<int>, tools: Tools, e: Finding)
    ensures e in LineFindings(line, number, width, tools) <==>
      match e
      case TrailingSpace(at) => at == number && line != "" && IsSpace(line[|line| - 1])
      case TableWidth(at, found, expected) => at == number && width == Some(expected) && found == Cells(line) != expected
      case MissingLink(at, path) => at == number && SomeMissing(Targets(line), path, tools)
      case _ => false
  {
    hide IsSpace, Targets, Cells, SomeMissing, MissingLinks;
    var spaces := if line != "" && IsSpace(line[|line| - 1]) then [TrailingSpace(number)] else [];
    var widths := if width.Some? && Cells(line) != width.value then [TableWidth(number, Cells(line), width.value)] else [];
    var missing := MissingLinks(Targets(line), number, tools);
    MissingExactly(Targets(line), number, tools, e);
    assert LineFindings(line, number, width, tools) == spaces + widths + missing;
    assert e in spaces <==> e == TrailingSpace(number) && line != "" && IsSpace(line[|line| - 1]);
    assert e in widths <==> width.Some? && e == TableWidth(number, Cells(line), width.value) && Cells(line) != width.value;
    assert e in spaces + widths + missing <==> e in spaces || e in widths || e in missing;
  }

  lemma LastFinding(pieces: seq<Piece>, k: nat, tools: Tools, e: Finding)
    requires k < |pieces|
    ensures e in LastFindings(pieces[..k + 1], tools) <==> IsFinding(pieces, k, e, tools)
  {
    hide LanguageOf, Joined, IsSpace, Targets, Cells, IsRow, NextNumber, SomeMissing, LineFindings;
    var upTo := pieces[..k + 1];
    assert upTo[..k] == pieces[..k] && upTo[k] == pieces[k];
    match pieces[k]
    case Prose(line) =>
      if RowPiece(pieces[k]) {
        HeadOfPrefix(pieces, k + 1, k);
        assert upTo[TableHead(pieces, k)] == pieces[TableHead(pieces, k)];
      }
      LineFinding(line, NextNumber(pieces[..k]), TableWidthOf(upTo), tools, e);
    case Block(_, _, _) =>
  }

  /** A finding is reported exactly when it is about some piece of the document. */
  lemma {:induction false} FindingsExactly(pieces: seq<Piece>, tools: Tools, e: Finding)
    ensures e in FindingsOf(pieces, tools) <==> exists k :: IsFinding(pieces, k, e, tools)
  {
    hide *;
    FindingsFromLast(pieces, tools, e);
    if e in FindingsOf(pieces, tools) {
      var n :| 0 < n <= |pieces| && e in LastFindings(pieces[..n], tools);
      LastFinding(pieces, n - 1, tools, e);
      assert IsFinding(pieces, n - 1, e, tools);
    }
    if k :| IsFinding(pieces, k, e, tools) {
      FindingInside(pieces, k, e, tools);
      LastFinding(pieces, k, tools, e);
      assert e in LastFindings(pieces[..k + 1], tools);
    }
  }

  lemma FindingInside(pieces: seq<Piece>, k: int, e: Finding, tools: Tools)
    requires IsFinding(pieces, k, e, tools)
    ensures 0 <= k < |pieces|
  {
    hide NextNumber, Cells, LanguageOf, Joined, Targets;
  }

  lemma {:induction false} FindingsFromLast(pieces: seq<Piece>, tools: Tools, e: Finding)
    ensures e in FindingsOf(pieces, tools)
       <==> exists n | 0 < n <= |pieces| :: e in LastFindings(pieces[..n], tools)
  {
    hide LastFindings;
    if pieces != [] {
      var m := |pieces| - 1;
      var most := pieces[..m];
      FindingsFromLast(most, tools, e);
      assert pieces[..m + 1] == pieces;
      assert forall n | 0 < n <= m :: most[..n] == pieces[..n];
    }
  }

  lemma {:induction false} ErrorsExactly(lines: seq<string>, tools: Tools, errors: seq<Finding>)
    requires var pieces, unclosed := Read(lines).pieces, Read(lines).unclosed;
             errors == FindingsOf(pieces, tools)
                       + (if unclosed.Some? then [UnclosedFence(NextNumber(pieces))] else [])
                       + (if DetailsBalanced(lines) then [] else [UnbalancedDetails])
    ensures forall e :: e in errors <==>
              || (exists k :: IsFinding(Read(lines).pieces, k, e, tools))
              || (Read(lines).unclosed.Some? && e == UnclosedFence(NextNumber(Read(lines).pieces)))
              || (!DetailsBalanced(lines) && e == UnbalancedDetails)
  {
    hide *;
    forall e {
      FindingsExactly(Read(lines).pieces, tools, e);
    }
  }

  lemma StartStands(lines: seq<string>, tools: Tools)
    ensures Standing(Read(lines[..0]), None, [], "", 0)
    ensures TableWidthOf(Read(lines[..0]).pieces) == None
    ensures TallyOf(Read(lines[..0]).pieces, tools) == Tally([], 0, 0, 0, [], [])
    ensures lines[..|lines|] == lines
  {
  }

  lemma FenceHeld(doc: Document, fence: Option<string>, body: seq<string>, language: string, start: nat)
    requires Standing(doc, fence, body, language, start) && fence.Some?
    ensures fence.value != ""
  {
    hide Closes, MatchFence, WellFormed;
    OpenFenceLong(doc);
  }

  lemma RowMeans(line: string)
    ensures RowPiece(Prose(line)) == IsRow(line)
  {
  }

  lemma {:induction false} TallyMeans(pieces: seq<Piece>, tools: Tools, tally: Tally)
    requires tally == TallyOf(pieces, tools)
    ensures tally.outside == ProseOf(pieces)
    ensures tally.snippets == SnippetsOf(pieces, tools)
    ensures tally.shells == ShellBlocks(pieces)
    ensures tally.tables == Tables(pieces)
    ensures tally.links == Links(pieces)
    ensures tally.errors == FindingsOf(pieces, tools)
  {
  }

  lemma UnclosedMeans(doc: Document, fence: Option<string>, body: seq<string>, language: string, start: nat)
    requires Standing(doc, fence, body, language, start)
    ensures fence.Some? <==> doc.unclosed.Some?
    ensures fence.Some? ==> start == NextNumber(doc.pieces)
  {
    hide WellFormed;
  }
}
