// The hosts file as text: what bufio.Scanner reads back from the text AddHosts and the
// restore pass write, and the undo stated on whole files.
module HostsText {
  import opened Wrappers
  import opened Text
  import opened HostLine
  import opened HostsFile
  import opened HostsUndo

  function DropCr(s: string): string {
    if s != "" && s[|s| - 1] == '\r' then s[..|s| - 1] else s
  }

  /** bufio.ScanLines over a whole text. */
  function ScanLines(text: string): seq<string>
    decreases |text|
  {
    var i := IndexOf(text, '\n');
    if text == "" then []
    else if i == |text| then [DropCr(text)]
    else [DropCr(text[..i])] + ScanLines(text[i + 1..])
  }

  /** Every line followed by the line ending, as AddHosts writes them. */
  function Terminated(lines: seq<string>, eol: string): string {
    if lines == [] then "" else lines[0] + (eol + Terminated(lines[1..], eol))
  }

  predicate LineFeedFree(s: string) {
    '\n' !in s
  }

  /** A line the scanner returns as it was written, whatever the line ending. */
  predicate Clean(s: string) {
    LineFeedFree(s) && (s != "" ==> s[|s| - 1] != '\r')
  }

  predicate AllFree(lines: seq<string>) {
    forall i :: 0 <= i < |lines| ==> LineFeedFree(lines[i])
  }

  predicate IsEol(eol: string) {
    eol == "\n" || eol == "\r\n"
  }

  /** A line as it is read back: a carriage return of its own before a line feed is taken for part of the line ending. */
  function Reread(line: string, eol: string): (r: string)
    ensures |r| <= |line| && (Clean(line) ==> r == line)
    ensures LineFeedFree(line) ==> LineFeedFree(r)
  {
    if eol == "\n" then DropCr(line) else line
  }

  function RereadAll(lines: seq<string>, eol: string): (r: seq<string>)
    ensures |r| == |lines|
    ensures forall i :: 0 <= i < |lines| ==> r[i] == Reread(lines[i], eol)
  {
    seq(|lines|, i requires 0 <= i < |lines| => Reread(lines[i], eol))
  }

  lemma ScanHead(head: string, rest: string)
    requires LineFeedFree(head)
    ensures ScanLines(head + ['\n'] + rest) == [DropCr(head)] + ScanLines(rest)
  {
    var text := head + ['\n'] + rest;
    IndexOfAppend(head, '\n', rest);
    assert text[..|head|] == head && text[|head| + 1..] == rest;
  }

  lemma ScanLine(line: string, eol: string, rest: string)
    requires IsEol(eol) && LineFeedFree(line)
    ensures ScanLines(line + (eol + rest)) == [Reread(line, eol)] + ScanLines(rest)
  {
    hide ScanLines;
    var head := if eol == "\n" then line else line + "\r";
    assert line + (eol + rest) == head + ['\n'] + rest;
    ScanHead(head, rest);
    assert eol == "\r\n" ==> head[..|head| - 1] == line;
  }

  lemma FirstLine(lines: seq<string>, eol: string)
    requires lines != []
    ensures RereadAll(lines, eol) == [Reread(lines[0], eol)] + RereadAll(lines[1..], eol)
    ensures Terminated(lines, eol) == lines[0] + (eol + Terminated(lines[1..], eol))
    ensures AllFree(lines) ==> LineFeedFree(lines[0]) && AllFree(lines[1..])
  {
    hide Reread, LineFeedFree;
  }

  /** The scanner reads back the lines written. */
  lemma {:induction false} ScanTerminated(lines: seq<string>, eol: string)
    requires IsEol(eol) && AllFree(lines)
    ensures ScanLines(Terminated(lines, eol)) == RereadAll(lines, eol)
  {
    if lines == [] {
      hide Reread;
    } else {
      hide *;
      FirstLine(lines, eol);
      ScanTerminated(lines[1..], eol);
      ScanLine(lines[0], eol, Terminated(lines[1..], eol));
    }
  }

  /** The lines read from any text hold no line feed. */
  lemma {:induction false} ScanFree(text: string)
    ensures AllFree(ScanLines(text))
    decreases |text|
  {
    var i := IndexOf(text, '\n');
    if text == "" || i == |text| {
    } else {
      ScanFree(text[i + 1..]);
    }
  }

  lemma Assoc(a: string, b: string, c: string)
    ensures a + b + c == a + (b + c)
  {
  }

  lemma {:induction false} TerminatedAppend(a: seq<string>, b: seq<string>, eol: string)
    ensures Terminated(a + b, eol) == Terminated(a, eol) + Terminated(b, eol)
  {
    if a == [] {
      assert a + b == b;
    } else {
      TerminatedAppend(a[1..], b, eol);
      ConsAppend(a[0], a[1..], b);
      assert [a[0]] + a[1..] == a;
      TerminatedCons(a[0], a[1..] + b, eol);
      Assoc(eol, Terminated(a[1..], eol), Terminated(b, eol));
      Assoc(a[0], eol + Terminated(a[1..], eol), Terminated(b, eol));
    }
  }

  lemma TerminatedCons(first: string, rest: seq<string>, eol: string)
    ensures Terminated([first] + rest, eol) == first + (eol + Terminated(rest, eol))
  {
    assert ([first] + rest)[1..] == rest;
  }

  /** The file text AddHosts writes: the kept lines, then the mappings, each starting a new line. */
  function FileText(env: Env, r: Rewritten, order: seq<Host>, eol: string): string
    requires Enumerates(order, r.mappings.Keys)
  {
    Terminated(ShowLines(env, r.lines), eol) + MappingsText(ShowLines(env, MappingLines(order, r.mappings)), eol)
  }

  /** HostMappings.String over the printed lines. */
  function MappingsText(shown: seq<string>, eol: string): string {
    if shown == [] then eol else eol + (shown[0] + MappingsText(shown[1..], eol))
  }

  lemma {:induction false} MappingsTextTerminated(shown: seq<string>, eol: string)
    ensures MappingsText(shown, eol) == eol + Terminated(shown, eol)
  {
    if shown == [] {
      assert eol + "" == eol;
    } else {
      MappingsTextTerminated(shown[1..], eol);
    }
  }

  lemma FileTextTerminated(env: Env, r: Rewritten, order: seq<Host>, eol: string)
    requires Enumerates(order, r.mappings.Keys)
    ensures FileText(env, r, order, eol) == Terminated(WrittenLines(env, r, order), eol)
  {
    hide MappingLines, ShowLines;
    var lines := ShowLines(env, r.lines);
    var added := ShowLines(env, MappingLines(order, r.mappings));
    MappingsTextTerminated(added, eol);
    assert ([""] + added)[1..] == added;
    assert "" + (eol + Terminated(added, eol)) == eol + Terminated(added, eol);
    TerminatedAppend(lines, [""] + added, eol);
    assert WrittenLines(env, r, order) == lines + ([""] + added);
  }

  /** Joining lines of which the last is blank terminates the others. */
  lemma {:induction false} JoinTerminated(lines: seq<string>, eol: string)
    ensures Join(lines + [""], eol) == Terminated(lines, eol)
  {
    if lines == [] {
      assert lines + [""] == [""];
    } else {
      JoinTerminated(lines[1..], eol);
      assert (lines + [""])[1..] == lines[1..] + [""];
      Assoc(lines[0], eol, Terminated(lines[1..], eol));
    }
  }

  // ---------- printed lines ----------

  lemma AppendClean(a: string, b: string)
    requires LineFeedFree(a) && Clean(b) && (b == "" ==> Clean(a))
    ensures Clean(a + b)
  {
  }

  lemma TokenClean(env: Env, s: string)
    requires env.Token(s)
    ensures Clean(s)
  {
    assert IsSpace('\n') && IsSpace('\r');
  }

  lemma {:induction false} JoinTokensClean(env: Env, tokens: seq<string>)
    requires forall i :: 0 <= i < |tokens| ==> env.Token(tokens[i])
    requires tokens != []
    ensures Clean(Join(tokens, " ")) && Join(tokens, " ") != ""
  {
    TokenClean(env, tokens[0]);
    if |tokens| > 1 {
      JoinTokensClean(env, tokens[1..]);
      AppendClean(tokens[0] + " ", Join(tokens[1..], " "));
    }
  }

  lemma AddressClean(env: Env, l: Line)
    requires l.WellFormed(env) && l.ip.Some?
    ensures Clean(l.Body(env))
    ensures l.comments == [] || l.comments == [MARKING] ==> Clean(l.Show(env))
  {
    JoinTokensClean(env, ShowHosts(env, l.hosts));
    TokenClean(env, env.showIp(l.ip.value));
    AppendClean(env.showIp(l.ip.value) + "\t", Join(ShowHosts(env, l.hosts), " "));
    if l.comments == [MARKING] {
      MarkingIsToken(env);
      TokenClean(env, MARKING);
      AppendClean(l.Body(env) + " " + [COMMENT_MARKER], MARKING);
    }
  }

  lemma {:induction false} JoinFree(parts: seq<string>)
    requires AllFree(parts)
    ensures LineFeedFree(Join(parts, [COMMENT_MARKER]))
  {
    if |parts| > 1 {
      JoinFree(parts[1..]);
    }
  }

  /** The text behind a line's first marker holds no line feed either. */
  lemma CommentsFree(line: string)
    requires LineFeedFree(line)
    ensures LineFeedFree(Join(Comments(line), [COMMENT_MARKER]))
  {
    var i := IndexOf(line, COMMENT_MARKER);
    hide Split, Join;
    if i < |line| {
      JoinSplit(line[i + 1..], COMMENT_MARKER);
    } else {
      JoinFree([]);
    }
  }

  lemma ShowFree(env: Env, l: Line)
    requires l.WellFormed(env) && l.ip.Some?
    requires LineFeedFree(Join(l.comments, [COMMENT_MARKER]))
    ensures LineFeedFree(l.Show(env))
  {
    AddressClean(env, l);
    hide Join, Line.Body, Line.WellFormed;
  }

  lemma ParsedComments(env: Env, line: string)
    requires !Parse(env, line, false).overLimit
    ensures Parse(env, line, false).line.comments == Comments(line)
  {
  }

  /** The text an address line is commented out as. */
  lemma SourceFree(env: Env, line: string)
    requires env.Valid() && LineFeedFree(line)
    requires var p := Parse(env, line, false); p.ok && p.line.ip.Some?
    ensures LineFeedFree(CommentedSource(env, line))
  {
    hide Parse, Env.Valid, Line.WellFormed, Line.Show, Comments, Join, LineFeedFree;
    if !Parse(env, line, false).overLimit {
      ParseWellFormed(env, line, false);
      ParsedComments(env, line);
      CommentsFree(line);
      ShowFree(env, Parse(env, line, false).line);
    }
  }

  lemma MarkedShow(env: Env, text: string)
    ensures MarkedText(text).Show(env) == [COMMENT_MARKER] + text + if OwnMarked(text) then "" else [COMMENT_MARKER] + MARKING
  {
    hide Split, Join;
    var parts := Split(text, COMMENT_MARKER);
    JoinSplit(text, COMMENT_MARKER);
    JoinAppend(parts, MARKING, [COMMENT_MARKER]);
    ShowComment(env, parts);
    ShowComment(env, parts + [MARKING]);
    hide Line.Show;
    Assoc([COMMENT_MARKER] + text, [COMMENT_MARKER], MARKING);
    Assoc([COMMENT_MARKER], text, [COMMENT_MARKER] + MARKING);
    Assoc(text, [COMMENT_MARKER], MARKING);
  }

  lemma OwnMarkedText(text: string)
    requires OwnMarked(text)
    ensures |MARKING| <= |text| && text[|text| - |MARKING|..] == MARKING
  {
    hide Split, Join;
    var parts := Split(text, COMMENT_MARKER);
    JoinSplit(text, COMMENT_MARKER);
    var n := |parts| - 1;
    assert parts == parts[..n] + [MARKING];
    if n == 0 {
      JoinOne(MARKING, [COMMENT_MARKER]);
    } else {
      JoinAppend(parts[..n], MARKING, [COMMENT_MARKER]);
    }
  }

  lemma EndsClean(a: string, b: string)
    requires LineFeedFree(a) && Clean(b) && |b| <= |a| && a[|a| - |b|..] == b && b != ""
    ensures Clean(a)
  {
    assert a[|a| - 1] == b[|b| - 1];
  }

  /** A commented-out text ends in the own mark. */
  lemma MarkedTextClean(env: Env, text: string)
    requires LineFeedFree(text)
    ensures Clean(MarkedText(text).Show(env))
  {
    MarkedShow(env, text);
    MarkingIsToken(env);
    TokenClean(env, MARKING);
    hide Split, MarkedText, Line.Show;
    if OwnMarked(text) {
      OwnMarkedText(text);
      hide OwnMarked;
      EndsClean(text, MARKING);
      AppendClean([COMMENT_MARKER], text);
      assert [COMMENT_MARKER] + text + "" == [COMMENT_MARKER] + text;
    } else {
      hide OwnMarked;
      AppendClean([COMMENT_MARKER] + text + [COMMENT_MARKER], MARKING);
      Assoc([COMMENT_MARKER] + text, [COMMENT_MARKER], MARKING);
    }
  }

  /** A line that is not a comment is rewritten to lines that are read back as they are. */
  lemma RewrittenClean(env: Env, line: string, m: map<Host, Ip>)
    requires env.Valid() && LineFeedFree(line) && !(line != "" && line[0] == COMMENT_MARKER)
    ensures forall i :: 0 <= i < |RewriteLine(env, line, m).lines| ==> Clean(RewriteLine(env, line, m).lines[i].Show(env))
  {
    hide Parse, Split, KeepHosts, TakeMappings, Clean, Env.Valid, Line.Show, Line.WellFormed, MarkedText;
    var p := Parse(env, line, false);
    CommentTextOk(env, line);
    CommentOnlyParse(env, line);
    if line == "" {
      BlankLine(env);
      BlankIsClean(env);
      assert RewriteLine(env, line, m).lines == [Line(None, [], [])];
    } else if !p.ok {
      PlainRewritten(env, line, m);
      MarkedTextClean(env, line);
    } else {
      ParseWellFormed(env, line, false);
      hide RewriteLine;
      AddressRewrittenClean(env, line, m);
    }
  }

  lemma BlankIsClean(env: Env)
    ensures Clean("") && Line(None, [], []).Show(env) == ""
  {
  }

  lemma AddressRewrittenClean(env: Env, line: string, m: map<Host, Ip>)
    requires env.Valid() && LineFeedFree(line)
    requires var p := Parse(env, line, false); p.ok && p.line.ip.Some? && p.line.WellFormed(env)
    ensures forall i :: 0 <= i < |RewriteLine(env, line, m).lines| ==> Clean(RewriteLine(env, line, m).lines[i].Show(env))
  {
    hide Parse, RewriteLine, KeepHosts, TakeMappings, Clean, Env.Valid, Line.Show, MarkedText, CommentedSource;
    AddressLines(env, line, m);
    var p := Parse(env, line, false);
    var active := KeptLine(env, line, m);
    if active.hosts != [] {
      AddressClean(env, active);
      MarkOnly(active);
      AddressClean(env, active.WithOwnMarking());
    }
    SourceFree(env, line);
    MarkedTextClean(env, CommentedSource(env, line));
  }

  // ---------- one line, written, read, restored and read again ----------

  predicate IsComment(line: string) {
    line != "" && line[0] == COMMENT_MARKER
  }

  /** What the restore pass makes of a line's rewritten lines, read from the file; None is a panic. */
  function BackFrom(env: Env, line: string, m: map<Host, Ip>, eol: string): Option<string> {
    if IsComment(line) then Unmarked(env, Line(None, [], Comments(Reread(Used(env, line), eol))))
    else Restored(env, line, m)
  }

  lemma CommentRestored(env: Env, line: string)
    requires IsComment(line)
    ensures RestoreLine(env, line) == OutcomeOf(Unmarked(env, Line(None, [], Comments(line))))
  {
    RestoredIsUnmarkedWhole(env, line);
    OwnMarkedComment(line);
    ShowComment(env, Comments(line));
    hide Split, Join, Fields, Comments, Line.Show;
    assert IndexOf(line, COMMENT_MARKER) == 0;
    assert Parse(env, line, true).line == Line(None, [], Comments(line));
  }

  lemma RereadComment(line: string, eol: string)
    requires IsComment(line)
    ensures IsComment(Reread(line, eol))
  {
  }

  lemma UsedComment(env: Env, line: string, m: map<Host, Ip>)
    requires IsComment(line)
    ensures IsComment(Used(env, line))
    ensures ShowLines(env, RewriteLine(env, line, m).lines) == [Used(env, line)]
  {
    hide Split, Join, Fields, KeepHosts, TakeMappings;
    CommentOnlyParse(env, line);
    var used := Used(env, line);
    OwnMarkedComment(used);
    ShowComment(env, Comments(used));
    assert Parse(env, line, false).line == Line(None, [], Comments(used));
    hide Parse, Comments, Line.Show;
    assert RewriteLine(env, line, m).lines == [Line(None, [], Comments(used))];
  }

  lemma RestoreOneLine(env: Env, line: string, text: Option<string>)
    requires RestoreLine(env, line) == OutcomeOf(text)
    ensures RestoreLines(env, [line]) == Alone(text)
  {
    hide RestoreLine, Collect;
    CollectShort(text);
    assert Outcomes(env, [line]) == [OutcomeOf(text)];
  }

  lemma RereadClean(env: Env, lines: seq<Line>, eol: string)
    requires forall i :: 0 <= i < |lines| ==> Clean(lines[i].Show(env))
    ensures RereadAll(ShowLines(env, lines), eol) == ShowLines(env, lines)
  {
    hide Clean, Line.Show, Reread;
  }

  lemma RestoreReread(env: Env, line: string, m: map<Host, Ip>, eol: string)
    requires env.Valid() && LineFeedFree(line)
    ensures RestoreLines(env, RereadAll(ShowLines(env, RewriteLine(env, line, m).lines), eol))
      == Alone(BackFrom(env, line, m, eol))
  {
    hide RestoreLine, RestoreLines, Restored, RewriteLine, Reread, Comments, Unmarked, Used, ShowLines;
    if IsComment(line) {
      UsedComment(env, line, m);
      var again := Reread(Used(env, line), eol);
      RereadComment(Used(env, line), eol);
      CommentRestored(env, again);
      RestoreOneLine(env, again, BackFrom(env, line, m, eol));
      assert RereadAll([Used(env, line)], eol) == [again];
    } else {
      RewrittenClean(env, line, m);
      RereadClean(env, RewriteLine(env, line, m).lines, eol);
      RestoreRewritten(env, line, m);
    }
  }

  /**
   * The lines of a file whose meaning survives: an undoable one with an address, and
   * another if it ends in no carriage return, or each reading takes no more than was written.
   */
  predicate FileUndoable(env: Env, line: string, eol: string) {
    View(env, line).Mapping?
    || (Undoable(env, line) && (Clean(line) || (env.LineEnding == "\r\n" && (IsComment(line) ==> eol == "\r\n"))))
  }

  /** A carriage return at the end of a line is white space or comment. */
  lemma ViewDropCr(env: Env, line: string, eol: string)
    ensures View(env, line).Mapping? ==> View(env, Reread(line, eol)) == View(env, line)
  {
    if eol == "\n" && line != "" && line[|line| - 1] == '\r' {
      var t := DropCr(line);
      assert line == t + "\r";
      var i := IndexOf(t, COMMENT_MARKER);
      if i < |t| {
        IndexOfPrefix(t, "\r", COMMENT_MARKER);
        ViewByHead(env, line, t);
      } else {
        NoMarkerInCr(t);
        FieldsTrailing(t, '\r');
        ViewByFields(env, line, t);
      }
    }
  }

  lemma CutBefore(t: string, i: nat, c: char, more: string)
    requires i < |t| && t[i] == c
    ensures t + more == t[..i] + [c] + (t[i + 1..] + more)
    ensures (t + more)[..i] == t[..i]
  {
    var u, v := t + more, t[..i] + [c] + (t[i + 1..] + more);
    assert |u| == |v|;
    assert forall k :: 0 <= k < |u| ==> u[k] == v[k];
  }

  lemma IndexOfPrefix(t: string, more: string, c: char)
    requires IndexOf(t, c) < |t|
    ensures IndexOf(t + more, c) == IndexOf(t, c) && (t + more)[..IndexOf(t, c)] == t[..IndexOf(t, c)]
  {
    var i := IndexOf(t, c);
    CutBefore(t, i, c, more);
    hide IndexOf;
    IndexOfAppend(t[..i], c, t[i + 1..] + more);
  }

  lemma NoMarkerInCr(t: string)
    requires COMMENT_MARKER !in t
    ensures Head(t) == t && Head(t + "\r") == t + "\r"
  {
    assert t[..|t|] == t;
    assert COMMENT_MARKER !in t + "\r";
    assert (t + "\r")[..|t + "\r"|] == t + "\r";
  }

  lemma ViewByFields(env: Env, a: string, b: string)
    requires Fields(Head(a)) == Fields(Head(b))
    ensures View(env, a).Mapping? ==> View(env, b) == View(env, a)
  {
    assert Fields("") == [];
    hide Fields, ParseHosts;
  }

  /** A text that is not the line does not mean what an unmapped line means. */
  lemma PlainMeans(env: Env, text: string, line: string)
    requires View(env, line).Plain?
    ensures View(env, text) == View(env, line) <==> text == line
  {
    hide Parse;
  }

  /** What comes back for a line that is not undoable is shorter. */
  lemma NotUndoableShrinks(env: Env, line: string, m: map<Host, Ip>, eol: string)
    requires env.Valid() && !Undoable(env, line)
    ensures BackFrom(env, line, m, eol).Some? ==> |BackFrom(env, line, m, eol).value| < |line|
  {
    hide Parse, Split, Join, Fields, TakeMappings, KeepHosts, Unmarked, IndexOf, Reread, Comments, Restored;
    CommentOnlyParse(env, line);
    if line == "" {
      BlankLine(env);
    } else if IsComment(line) {
      CommentBack(env, line, m, eol);
      OwnReread(line, eol);
    } else {
      NotUndoableRestored(env, line, m);
      UnmarkView(env, line);
    }
  }

  lemma OwnReread(line: string, eol: string)
    ensures OwnMarked(line) ==> Reread(line, eol) == line
  {
    if OwnMarked(line) {
      OwnMarkedText(line);
      hide OwnMarked;
      assert line[|line| - 1] == MARKING[|MARKING| - 1];
    }
  }

  lemma NotUndoableRestored(env: Env, line: string, m: map<Host, Ip>)
    requires env.Valid() && !Undoable(env, line) && line != "" && !IsComment(line)
    ensures OwnMarked(line) && Restored(env, line, m) == Unmark(line)
  {
    var p := Parse(env, line, false);
    CommentOnlyParse(env, line);
    hide Parse, Split, Fields, TakeMappings, KeepHosts, View, Restored, OwnMarked, Env.Valid;
    if p.ok && !p.overLimit {
      RestoredAddress(env, line, m);
    } else {
      RestoredText(env, line, m);
    }
  }

  /** A comment comes back as what was read of it, or less. */
  lemma CommentBack(env: Env, line: string, m: map<Host, Ip>, eol: string)
    requires IsComment(line)
    ensures var again := Reread(Used(env, line), eol); var back := BackFrom(env, line, m, eol);
      && (!OwnMarked(again) ==> back == Some(again))
      && (OwnMarked(again) && back.Some? ==> |back.value| < |again|)
      && |again| <= |Used(env, line)| <= |line|
  {
    RereadComment(Used(env, line), eol);
    var again := Reread(Used(env, line), eol);
    hide Split, Join, Comments, OwnMarked, Reread;
    OwnMarkedComment(again);
    ShowComment(env, Comments(again));
  }

  /** A line comes back from the file with its meaning exactly when it is undoable in it. */
  lemma BackMeaning(env: Env, line: string, m: map<Host, Ip>, eol: string)
    requires env.Valid() && LineFeedFree(line) && IsEol(eol)
    ensures var back := BackFrom(env, line, m, eol);
      FileUndoable(env, line, eol) <==>
        back.Some? && View(env, Reread(back.value, env.LineEnding)) == View(env, line)
  {
    hide Parse, Split, Join, Fields, TakeMappings, KeepHosts, Unmarked, IndexOf, Comments, Restored, OwnMarked, RestoreLine;
    var back := BackFrom(env, line, m, eol);
    if View(env, line).Mapping? {
      CommentOnlyParse(env, line);
      RestoredMeaning(env, line, m);
      ViewDropCr(env, back.value, env.LineEnding);
    } else if !Undoable(env, line) {
      NotUndoableShrinks(env, line, m, eol);
      if back.Some? {
        PlainMeans(env, Reread(back.value, env.LineEnding), line);
      }
    } else if IsComment(line) {
      CommentMeaning(env, line, m, eol);
    } else {
      RestoredMeaning(env, line, m);
      PlainMeans(env, back.value, line);
      PlainMeans(env, Reread(line, env.LineEnding), line);
      RereadSame(line, env.LineEnding);
    }
  }

  lemma RereadSame(line: string, eol: string)
    requires LineFeedFree(line) && IsEol(eol)
    ensures Reread(line, eol) == line <==> Clean(line) || eol == "\r\n"
  {
  }

  lemma CommentMeaning(env: Env, line: string, m: map<Host, Ip>, eol: string)
    requires IsComment(line) && LineFeedFree(line) && IsEol(eol)
    requires View(env, line).Plain? && Undoable(env, line)
    ensures var back := BackFrom(env, line, m, eol);
      FileUndoable(env, line, eol) <==>
        back.Some? && View(env, Reread(back.value, env.LineEnding)) == View(env, line)
  {
    hide Parse, View, Split, BackFrom, OwnMarked, Clean;
    CommentBack(env, line, m, eol);
    RereadSame(line, eol);
    RereadSame(line, env.LineEnding);
    hide Reread;
    var back := BackFrom(env, line, m, eol);
    if back.Some? {
      PlainMeans(env, Reread(back.value, env.LineEnding), line);
    }
  }

  lemma BackFree(env: Env, line: string, m: map<Host, Ip>, eol: string)
    requires env.Valid() && LineFeedFree(line)
    ensures BackFrom(env, line, m, eol).Some? ==> LineFeedFree(BackFrom(env, line, m, eol).value)
  {
    hide Parse, Split, Join, Fields, TakeMappings, KeepHosts, Unmark, Unmarked, Comments, Restored, OwnMarked,
      Line.Show, Env.Valid, LineFeedFree;
    if IsComment(line) {
      CommentBackFree(env, line, m, eol);
    } else {
      RestoredFree(env, line, m);
    }
  }

  lemma UnmarkFree(text: string)
    requires LineFeedFree(text)
    ensures Unmark(text).Some? ==> LineFeedFree(Unmark(text).value)
  {
    hide Split, Join;
    var parts := Split(text, COMMENT_MARKER);
    JoinSplit(text, COMMENT_MARKER);
    if OwnMarked(text) && |parts| > 1 {
      var n := |parts| - 1;
      assert parts == parts[..n] + [MARKING];
      JoinAppend(parts[..n], MARKING, [COMMENT_MARKER]);
      var t := Join(parts[..n], [COMMENT_MARKER]);
      assert text[..|t|] == t;
    }
  }

  lemma RestoredFree(env: Env, line: string, m: map<Host, Ip>)
    requires env.Valid() && LineFeedFree(line) && !IsComment(line)
    ensures Restored(env, line, m).Some? ==> LineFeedFree(Restored(env, line, m).value)
  {
    hide Parse, Split, Join, Fields, TakeMappings, KeepHosts, Unmark, Unmarked, OwnMarked, Line.Show, Line.WellFormed, Env.Valid;
    var p := Parse(env, line, false);
    CommentOnlyParse(env, line);
    if line == "" {
      EmptyRestored(env, m);
    } else if p.ok {
      ParseWellFormed(env, line, false);
      SourceFree(env, line);
      UnmarkFree(CommentedSource(env, line));
      BareClean(env, p.line);
    } else {
      UnmarkFree(line);
    }
  }

  lemma BareClean(env: Env, l: Line)
    requires l.WellFormed(env) && l.ip.Some?
    ensures LineFeedFree(l.(comments := []).Show(env))
  {
    AddressClean(env, l.(comments := []));
  }

  lemma CommentBackFree(env: Env, line: string, m: map<Host, Ip>, eol: string)
    requires IsComment(line) && LineFeedFree(line)
    ensures BackFrom(env, line, m, eol).Some? ==> LineFeedFree(BackFrom(env, line, m, eol).value)
  {
    var again := Reread(Used(env, line), eol);
    RereadComment(Used(env, line), eol);
    CommentBack(env, line, m, eol);
    hide Reread, Unmarked, Unmark, OwnMarked, Comments;
    UnmarkFree(again[1..]);
    if OwnMarked(again) {
      OwnCommentUnmarked(env, again);
    }
  }

  lemma OwnCommentUnmarked(env: Env, line: string)
    requires IsComment(line) && OwnMarked(line)
    ensures Unmarked(env, Line(None, [], Comments(line))) == Unmark(line[1..])
  {
    hide Split, Join, Comments;
    OwnMarkedComment(line);
    UnmarkedParts(env, Comments(line));
    hide Unmarked;
  }

  lemma UnmarkedParts(env: Env, parts: seq<string>)
    requires parts != [] && parts[|parts| - 1] == MARKING
    ensures Unmarked(env, Line(None, [], parts)) ==
      if |parts| == 1 then None else Some(Join(parts[..|parts| - 1], [COMMENT_MARKER]))
  {
    hide Join;
  }

  // ---------- the whole file ----------

  predicate AllFileUndoable(env: Env, lines: seq<string>, eol: string) {
    forall i :: 0 <= i < |lines| ==> FileUndoable(env, lines[i], eol)
  }

  lemma RereadAppend(a: seq<string>, b: seq<string>, eol: string)
    ensures RereadAll(a + b, eol) == RereadAll(a, eol) + RereadAll(b, eol)
  {
    hide Reread;
  }

  /** Rewriting lines, reading them from the file, restoring them and reading them again. */
  lemma {:induction false} UndoReread(env: Env, lines: seq<string>, m: map<Host, Ip>, eol: string)
    requires env.Valid() && AllFree(lines) && IsEol(eol)
    ensures var r := RestoreLines(env, RereadAll(ShowLines(env, RewriteLines(env, lines, m).lines), eol));
      && (r.Some? ==> |r.value| == |lines| && AllFree(r.value))
      && (AllFileUndoable(env, lines, eol) <==>
          r.Some? && Views(env, RereadAll(r.value, env.LineEnding)) == Views(env, lines))
  {
    hide Parse, RestoreLine, RewriteLine, View, FileUndoable, BackFrom, Reread, LineFeedFree, Env.Valid;
    if lines == [] {
      assert ShowLines(env, []) == [];
      assert Outcomes(env, []) == [];
    } else {
      var n := |lines| - 1;
      UndoReread(env, lines[..n], m, eol);
      var before := RewriteLines(env, lines[..n], m);
      var last := RewriteLine(env, lines[n], before.mappings);
      var a, b := ShowLines(env, before.lines), ShowLines(env, last.lines);
      assert ShowLines(env, before.lines + last.lines) == a + b;
      RereadAppend(a, b, eol);
      RestoreAppend(env, RereadAll(a, eol), RereadAll(b, eol));
      RestoreReread(env, lines[n], before.mappings, eol);
      BackMeaning(env, lines[n], before.mappings, eol);
      BackFree(env, lines[n], before.mappings, eol);
      hide RestoreLines, ShowLines, RereadAll, Views;
      RereadStep(env, lines, eol, RestoreLines(env, RereadAll(a, eol)), BackFrom(env, lines[n], before.mappings, eol));
    }
  }

  /** Joining what came back for all lines but the last with what came back for the last. */
  lemma RereadStep(env: Env, lines: seq<string>, eol: string, before: Option<seq<string>>, last: Option<string>)
    requires lines != []
    requires before.Some? ==> |before.value| == |lines| - 1 && AllFree(before.value)
    requires last.Some? ==> LineFeedFree(last.value)
    requires AllFileUndoable(env, lines[..|lines| - 1], eol) <==>
      before.Some? && Views(env, RereadAll(before.value, env.LineEnding)) == Views(env, lines[..|lines| - 1])
    requires FileUndoable(env, lines[|lines| - 1], eol) <==>
      last.Some? && View(env, Reread(last.value, env.LineEnding)) == View(env, lines[|lines| - 1])
    ensures var r := Concat(before, Alone(last));
      && (r.Some? ==> |r.value| == |lines| && AllFree(r.value))
      && (AllFileUndoable(env, lines, eol) <==>
          r.Some? && Views(env, RereadAll(r.value, env.LineEnding)) == Views(env, lines))
  {
    hide Parse, View, FileUndoable, Reread, LineFeedFree;
    var n := |lines| - 1;
    var r := Concat(before, Alone(last));
    assert AllFileUndoable(env, lines, eol) <==>
      AllFileUndoable(env, lines[..n], eol) && FileUndoable(env, lines[n], eol) by {
      assert forall i :: 0 <= i < n ==> lines[..n][i] == lines[i];
    }
    var all := Views(env, lines);
    assert all[..n] == Views(env, lines[..n]);
    if r.Some? {
      var back := Views(env, RereadAll(r.value, env.LineEnding));
      assert back[..n] == Views(env, RereadAll(before.value, env.LineEnding));
      assert back[n] == View(env, Reread(last.value, env.LineEnding));
      assert all[n] == View(env, lines[n]);
      if back[..n] == all[..n] && back[n] == all[n] {
        assert back == all;
      }
    }
  }

  lemma MappingLineClean(env: Env, ip: Ip, h: Host)
    requires env.GoodIp(ip) && env.GoodHost(h)
    ensures Clean(Line(Some(ip), [h], [MARKING]).Show(env))
  {
    MarkingIsToken(env);
    AddressClean(env, Line(Some(ip), [h], [MARKING]));
    hide Line.Show, Clean;
  }

  /** The added lines are read back as they are. */
  lemma MappingLinesClean(env: Env, order: seq<Host>, m: map<Host, Ip>, eol: string)
    requires GoodMappings(env, m)
    requires forall i :: 0 <= i < |order| ==> order[i] in m
    ensures var shown := ShowLines(env, MappingLines(order, m)); AllFree(shown) && RereadAll(shown, eol) == shown
  {
    hide Line.Show, Env.GoodIp, Env.GoodHost;
    forall i | 0 <= i < |order| ensures Clean(ShowLines(env, MappingLines(order, m))[i]) {
      MappingLineClean(env, m[order[i]], order[i]);
    }
    hide Reread;
  }

  lemma {:induction false} RewrittenFree(env: Env, lines: seq<string>, m: map<Host, Ip>)
    requires env.Valid() && AllFree(lines)
    ensures AllFree(ShowLines(env, RewriteLines(env, lines, m).lines))
  {
    hide Parse, RewriteLine, LineFeedFree, Env.Valid, Line.Show;
    if lines != [] {
      var n := |lines| - 1;
      RewrittenFree(env, lines[..n], m);
      var before := RewriteLines(env, lines[..n], m);
      var last := RewriteLine(env, lines[n], before.mappings);
      RewrittenLineFree(env, lines[n], before.mappings);
      assert ShowLines(env, before.lines + last.lines) == ShowLines(env, before.lines) + ShowLines(env, last.lines);
    }
  }

  lemma RewrittenLineFree(env: Env, line: string, m: map<Host, Ip>)
    requires env.Valid() && LineFeedFree(line)
    ensures AllFree(ShowLines(env, RewriteLine(env, line, m).lines))
  {
    hide Parse, RewriteLine, Env.Valid, Line.Show;
    if IsComment(line) {
      UsedComment(env, line, m);
    } else {
      RewrittenClean(env, line, m);
    }
  }

  // ---------- the file, and what stays of the old one ----------

  predicate EndsLine(text: string) {
    text == "" || text[|text| - 1] == '\n'
  }

  /** A text that ends its last line is read on its own, and then what follows. */
  lemma {:induction false} ScanAppend(a: string, b: string)
    requires EndsLine(a)
    ensures ScanLines(a + b) == ScanLines(a) + ScanLines(b)
    decreases |a|
  {
    if a == "" {
      assert a + b == b;
    } else {
      var i := IndexOf(a, '\n');
      var head, rest := a[..i], a[i + 1..];
      CutBefore(a, i, '\n', b);
      CutBefore(a, i, '\n', "");
      assert a + "" == a && rest + "" == rest;
      hide IndexOf, ScanLines;
      ScanHead(head, rest);
      ScanHead(head, rest + b);
      ScanAppend(rest, b);
      LinesAppend(DropCr(head), ScanLines(rest), ScanLines(b));
    }
  }

  lemma CutLine(text: string)
    requires '\n' in text
    ensures var i := IndexOf(text, '\n');
      text == text[..i] + ['\n'] + text[i + 1..] && LineFeedFree(text[..i]) && (EndsLine(text) <==> EndsLine(text[i + 1..]))
  {
    CutBefore(text, IndexOf(text, '\n'), '\n', "");
    assert text + "" == text;
  }

  lemma OneLineRunsOn(a: string, b: string)
    requires a != "" && '\n' !in a && b != ""
    ensures |ScanLines(a + b)| == |ScanLines(b)|
  {
    if '\n' in b {
      CutLine(b);
      var j := IndexOf(b, '\n');
      HeadRunsOn(a, b[..j], b[j + 1..]);
    } else {
      OneLine(b);
      OneLine(a + b);
    }
  }

  lemma HeadRunsOn(a: string, head: string, rest: string)
    requires '\n' !in a && '\n' !in head
    ensures |ScanLines(a + (head + ['\n'] + rest))| == |ScanLines(head + ['\n'] + rest)|
  {
    Assoc(a, head + ['\n'], rest);
    Assoc(a, head, ['\n']);
    hide ScanLines;
    ScanHead(head, rest);
    ScanHead(a + head, rest);
  }

  /** A text that does not end its last line: what follows runs on in that line. */
  lemma {:induction false} ScanRunsOn(a: string, b: string)
    requires !EndsLine(a) && b != ""
    ensures |ScanLines(a + b)| == |ScanLines(a)| + |ScanLines(b)| - 1
    decreases |a|
  {
    hide ScanLines, IndexOf;
    if '\n' in a {
      CutLine(a);
      var i := IndexOf(a, '\n');
      ScanRunsOn(a[i + 1..], b);
      BothCut(a[..i], a[i + 1..], b);
    } else {
      OneLine(a);
      OneLineRunsOn(a, b);
    }
  }

  lemma BothCut(head: string, rest: string, b: string)
    requires LineFeedFree(head)
    ensures |ScanLines(head + ['\n'] + rest + b)| - |ScanLines(head + ['\n'] + rest)| == |ScanLines(rest + b)| - |ScanLines(rest)|
  {
    hide ScanLines;
    Assoc(head + ['\n'], rest, b);
    ScanHead(head, rest);
    ScanHead(head, rest + b);
  }

  lemma OneLine(s: string)
    requires s != "" && '\n' !in s
    ensures |ScanLines(s)| == 1
  {
  }

  lemma LinesAppend(first: string, a: seq<string>, b: seq<string>)
    ensures [first] + (a + b) == [first] + a + b
  {
  }

  lemma {:induction false} TerminatedEnds(lines: seq<string>, eol: string)
    requires IsEol(eol)
    ensures EndsLine(Terminated(lines, eol))
  {
    if lines != [] {
      TerminatedEnds(lines[1..], eol);
      var rest := Terminated(lines[1..], eol);
      var text := lines[0] + (eol + rest);
      assert text[|text| - 1] == if rest == "" then '\n' else rest[|rest| - 1];
    }
  }

  /** The system's hosts file after AddHosts: the new text over the old one, which is not cut off. */
  function FileAfter(env: Env, text: string, wanted: map<Host, Ip>, order: seq<Host>, eol: string): string
    requires Enumerates(order, RewriteLines(env, ScanLines(text), wanted).mappings.Keys)
  {
    Overwrite(text, FileText(env, RewriteLines(env, ScanLines(text), wanted), order, eol))
  }

  /** What stays of a longer old text. */
  function Tail(text: string, written: string): string {
    if |written| <= |text| then text[|written|..] else ""
  }

  lemma OverwriteTail(text: string, written: string)
    ensures Overwrite(text, written) == written + Tail(text, written)
    ensures |text| <= |written| ==> Tail(text, written) == ""
  {
  }

  /** A line the restore pass drops: it does not parse, or maps something and is own-marked. */
  predicate Dropped(env: Env, line: string) {
    var p := Parse(env, line, true);
    !p.ok || (p.line.Own() && p.line.ip.Some?)
  }

  predicate AllDropped(env: Env, lines: seq<string>) {
    forall i :: 0 <= i < |lines| ==> Dropped(env, lines[i])
  }

  lemma DroppedOutcome(env: Env, line: string)
    ensures RestoreLine(env, line) == Drop <==> Dropped(env, line)
  {
    hide Split, Fields, Comments, Line.Uncommented;
  }

  /** The restore pass leaves nothing of some lines exactly when it drops each of them. */
  lemma {:induction false} NothingLeft(env: Env, lines: seq<string>)
    ensures RestoreLines(env, lines) == Some([]) <==> AllDropped(env, lines)
  {
    hide RestoreLine, Dropped;
    if lines == [] {
      assert Outcomes(env, lines) == [];
    } else {
      var n := |lines| - 1;
      NothingLeft(env, lines[..n]);
      DroppedOutcome(env, lines[n]);
      assert Outcomes(env, lines)[..n] == Outcomes(env, lines[..n]);
      assert AllDropped(env, lines) <==> AllDropped(env, lines[..n]) && Dropped(env, lines[n]) by {
        assert forall i :: 0 <= i < n ==> lines[..n][i] == lines[i];
      }
    }
  }

  /** What the restore pass makes of the system's file: of the lines written, and of those that stayed. */
  lemma RestoreFile(env: Env, text: string, wanted: map<Host, Ip>, order: seq<Host>, eol: string)
    requires env.Valid() && GoodMappings(env, wanted) && IsEol(eol)
    requires Enumerates(order, RewriteLines(env, ScanLines(text), wanted).mappings.Keys)
    ensures var rw := RewriteLines(env, ScanLines(text), wanted);
      RestoreLines(env, ScanLines(FileAfter(env, text, wanted, order, eol))) ==
        Concat(Concat(RestoreLines(env, RereadAll(ShowLines(env, rw.lines), eol)), Some([""])),
               RestoreLines(env, ScanLines(Tail(text, FileText(env, rw, order, eol)))))
  {
    hide Parse, RestoreLine, RewriteLines, LineFeedFree, Collect, ScanLines, MappingLines, Reread, Env.Valid, IsEol,
      Overwrite, Tail;
    var lines := ScanLines(text);
    ScanFree(text);
    var rw := RewriteLines(env, lines, wanted);
    RewriteLinesShrinks(env, lines, wanted);
    RewrittenFree(env, lines, wanted);
    MappingLinesClean(env, order, rw.mappings, eol);
    MappingLinesDropped(env, order, rw.mappings);
    BlankReread(eol);
    var body, added := ShowLines(env, rw.lines), ShowLines(env, MappingLines(order, rw.mappings));
    var written := FileText(env, rw, order, eol);
    FileTextTerminated(env, rw, order, eol);
    ScanTerminated(WrittenLines(env, rw, order), eol);
    TerminatedEnds(WrittenLines(env, rw, order), eol);
    OverwriteTail(text, written);
    ScanAppend(written, Tail(text, written));
    RereadAppend(body + [""], added, eol);
    RereadAppend(body, [""], eol);
    hide ShowLines, RereadAll, Terminated, FileText;
    RestoreBody(env, RereadAll(body, eol), added);
    RestoreAppend(env, ScanLines(written), ScanLines(Tail(text, written)));
  }

  lemma JoinMore(lines: seq<string>, more: seq<string>, eol: string)
    requires more != []
    ensures Join(lines + [""] + more, eol) == Terminated(lines, eol) + (eol + Join(more, eol))
    decreases |lines|
  {
    if lines == [] {
      assert lines + [""] + more == [""] + more;
      assert ([""] + more)[1..] == more;
      assert "" + eol + Join(more, eol) == Terminated(lines, eol) + (eol + Join(more, eol));
    } else {
      var all, rest := lines + [""] + more, lines[1..] + [""] + more;
      assert all[1..] == rest;
      JoinMore(lines[1..], more, eol);
      var a, b := Terminated(lines[1..], eol), eol + Join(more, eol);
      Assoc(lines[0], eol, a + b);
      Assoc(eol, a, b);
      Assoc(lines[0], eol + a, b);
    }
  }

  /** With no line left of the old text the lines kept are terminated; otherwise a blank one follows them at least. */
  lemma JoinedFile(kept: seq<string>, more: seq<string>, eol: string)
    requires IsEol(eol) && AllFree(kept)
    ensures var joined := ScanLines(Join(kept + [""] + more, eol));
      if more == [] then joined == RereadAll(kept, eol) else |joined| > |kept|
  {
    hide Reread, LineFeedFree;
    if more == [] {
      assert kept + [""] + more == kept + [""];
      JoinTerminated(kept, eol);
      ScanTerminated(kept, eol);
    } else {
      JoinMore(kept, more, eol);
      TerminatedEnds(kept, eol);
      ScanTerminated(kept, eol);
      ScanAppend(Terminated(kept, eol), eol + Join(more, eol));
      hide ScanLines, RereadAll;
      ScanBlank(eol, Join(more, eol));
    }
  }

  lemma ScanBlank(eol: string, rest: string)
    requires IsEol(eol)
    ensures ScanLines(eol + rest) == [""] + ScanLines(rest)
  {
    ScanLine("", eol, rest);
    assert "" + (eol + rest) == eol + rest;
  }

  /**
   * On the system's file, for any text at all: add the mappings, read the file back with
   * what stays of the old text, restore it, and read it again. Every entry, comment and
   * unparseable line is back, with no line added, exactly when every line is undoable in
   * the file and the restore pass drops every line that stayed of the old text.
   */
  lemma UndoFile(env: Env, text: string, wanted: map<Host, Ip>, order: seq<Host>, eol: string)
    requires env.Valid() && GoodMappings(env, wanted) && IsEol(eol)
    requires Enumerates(order, RewriteLines(env, ScanLines(text), wanted).mappings.Keys)
    ensures var written := FileText(env, RewriteLines(env, ScanLines(text), wanted), order, eol);
      var r := RestoreLines(env, ScanLines(FileAfter(env, text, wanted, order, eol)));
      AllFileUndoable(env, ScanLines(text), eol) && AllDropped(env, ScanLines(Tail(text, written))) <==>
        r.Some? && Views(env, ScanLines(Join(r.value, env.LineEnding))) == Views(env, ScanLines(text))
  {
    hide Parse, RestoreLine, RewriteLines, View, FileUndoable, LineFeedFree, Collect, ScanLines, MappingLines, Reread, Env.Valid,
      IsEol, FileText, Tail, FileAfter, Dropped, RestoreLines;
    var lines := ScanLines(text);
    ScanFree(text);
    var rw := RewriteLines(env, lines, wanted);
    var tail := ScanLines(Tail(text, FileText(env, rw, order, eol)));
    RestoreFile(env, text, wanted, order, eol);
    UndoReread(env, lines, wanted, eol);
    NothingLeft(env, tail);
    hide ShowLines, RereadAll, AllDropped, AllFileUndoable;
    var kept, more := RestoreLines(env, RereadAll(ShowLines(env, rw.lines), eol)), RestoreLines(env, tail);
    if kept.Some? && more.Some? {
      EnvEol(env);
      JoinedFile(kept.value, more.value, env.LineEnding);
    }
  }

  /** A text no longer than what is written over it leaves nothing behind. */
  lemma UndoShorterFile(env: Env, text: string, wanted: map<Host, Ip>, order: seq<Host>, eol: string)
    requires env.Valid() && GoodMappings(env, wanted) && IsEol(eol)
    requires Enumerates(order, RewriteLines(env, ScanLines(text), wanted).mappings.Keys)
    requires |text| <= |FileText(env, RewriteLines(env, ScanLines(text), wanted), order, eol)|
    ensures var r := RestoreLines(env, ScanLines(FileAfter(env, text, wanted, order, eol)));
      AllFileUndoable(env, ScanLines(text), eol) <==>
        r.Some? && Views(env, ScanLines(Join(r.value, env.LineEnding))) == Views(env, ScanLines(text))
  {
    hide *;
    UndoFile(env, text, wanted, order, eol);
    var written := FileText(env, RewriteLines(env, ScanLines(text), wanted), order, eol);
    OverwriteTail(text, written);
    NoTail(env);
  }

  lemma NoTail(env: Env)
    ensures AllDropped(env, ScanLines(""))
  {
  }

  // ---------- a file that is not undone ----------

  /** An address line within the limits, none of whose hosts is wanted there, keeps its hosts and loses its comments. */
  lemma OtherLineKept(env: Env, ip: Ip, h: Host, comments: seq<string>, m: map<Host, Ip>)
    requires env.GoodIp(ip) && env.GoodHost(h) && !env.CommentHost(h) && !(h in m && m[h] == ip)
    requires forall i :: 0 <= i < |comments| ==> COMMENT_MARKER !in comments[i]
    requires !Parse(env, Line(Some(ip), [h], comments).Show(env), false).overLimit
    ensures var line := Line(Some(ip), [h], comments);
      && RewriteLine(env, line.Show(env), m) == Rewritten([Line(Some(ip), [h], [])], m)
      && View(env, line.Show(env)) == Mapping(ip, [h])
      && Parse(env, line.Show(env), true) == Parsed(true, false, line)
  {
    hide Parse, RewriteLine, Line.Show;
    var line := Line(Some(ip), [h], comments);
    ParseShow(env, line);
    LimitIrrelevant(env, line.Show(env));
    OneHostRewritten(env, line.Show(env), ip, h, comments, m);
  }

  lemma OneHostRewritten(env: Env, text: string, ip: Ip, h: Host, comments: seq<string>, m: map<Host, Ip>)
    requires Parse(env, text, false) == Parsed(true, false, Line(Some(ip), [h], comments))
    requires !env.CommentHost(h) && !(h in m && m[h] == ip)
    ensures RewriteLine(env, text, m) == Rewritten([Line(Some(ip), [h], [])], m)
  {
    hide Parse, TakeMappings, KeepHosts, Line.Show, CommentText, Line.Commented, Env.CommentHost;
    OneHostKept(env, ip, h, m);
  }

  lemma OneHostKept(env: Env, ip: Ip, h: Host, m: map<Host, Ip>)
    requires !env.CommentHost(h) && !(h in m && m[h] == ip)
    ensures TakeMappings(ip, [h], m) == Taken({}, m) && KeepHosts(env, [h], {}) == [h]
  {
    assert [h][..0] == [];
  }

  lemma CommentedShow(env: Env, ip: Ip, h: Host, comment: string)
    requires env.GoodIp(ip) && env.GoodHost(h) && COMMENT_MARKER !in comment && Clean(comment) && comment != ""
    ensures var bare, long := Line(Some(ip), [h], []).Show(env), Line(Some(ip), [h], [comment]).Show(env);
      Clean(bare) && Clean(long) && |long| == |bare| + 2 + |comment|
  {
    AddressClean(env, Line(Some(ip), [h], []));
    JoinOne(comment, [COMMENT_MARKER]);
    var bare := Line(Some(ip), [h], []).Body(env);
    assert Line(Some(ip), [h], [comment]).Body(env) == bare && bare != "";
    hide Join, Line.Body;
    AppendClean(bare + " " + [COMMENT_MARKER], comment);
  }

  /** The two lines of the file, and the file. */
  function LongFirst(env: Env, ip: Ip, h: Host, comment: string): string {
    Line(Some(ip), [h], [comment]).Show(env)
  }

  function TwoLines(first: string, second: string): string {
    first + ("\n" + (second + ("\n" + "")))
  }

  lemma TwoLinesRead(first: string, second: string)
    requires Clean(first) && Clean(second)
    ensures ScanLines(TwoLines(first, second)) == [first, second]
    ensures TwoLines(first, second) == Terminated([first, second], "\n")
  {
    TwoTerminated(first, second, "\n");
    hide ScanLines, Terminated;
    ScanLine(first, "\n", second + ("\n" + ""));
    ScanLine(second, "\n", "");
    EmptyScan();
  }

  lemma TwoTerminated(first: string, second: string, eol: string)
    ensures Terminated([first, second], eol) == first + (eol + (second + (eol + "")))
  {
    assert [first, second][1..] == [second];
    assert [second][1..] == [];
    assert Terminated([], eol) == "";
    assert Terminated([second], eol) == second + (eol + "");
  }

  lemma EmptyScan()
    ensures ScanLines("") == []
  {
  }

  lemma RewriteTwo(env: Env, first: string, second: string, m: map<Host, Ip>)
    ensures var a := RewriteLine(env, first, m); var b := RewriteLine(env, second, a.mappings);
      RewriteLines(env, [first, second], m) == Rewritten(a.lines + b.lines, b.mappings)
  {
    hide RewriteLine;
    assert [first, second][..1] == [first] && [first][..0] == [];
    assert RewriteLines(env, [first], m) == Rewritten([] + RewriteLine(env, first, m).lines, RewriteLine(env, first, m).mappings);
  }

  /** The tail of two lines, when it holds more than the second. */
  lemma TailOfTwo(first: string, second: string, written: string)
    requires Clean(second) && |written| <= |first|
    ensures ScanLines(Tail(TwoLines(first, second), written)) == ScanLines(first[|written|..] + "\n") + [second]
  {
    var text := TwoLines(first, second);
    var pre, end := first[|written|..] + "\n", second + ("\n" + "");
    assert Tail(text, written) == pre + end;
    ScanAppend(pre, end);
    ScanLine(second, "\n", "");
    EmptyScan();
    hide ScanLines;
  }

  lemma WrittenLength(env: Env, m: map<Host, Ip>, order: seq<Host>, a: Line, b: Line)
    requires Enumerates(order, m.Keys)
    ensures |FileText(env, Rewritten([a, b], m), order, "\n")| ==
      |a.Show(env)| + 1 + |b.Show(env)| + 1 + |MappingsText(ShowLines(env, MappingLines(order, m)), "\n")|
  {
    hide Line.Show, MappingLines, MappingsText;
    assert ShowLines(env, [a, b]) == [a.Show(env), b.Show(env)];
    TwoTerminated(a.Show(env), b.Show(env), "\n");
    hide Terminated;
  }

  /**
   * A file that is not undone: a first line whose comment is at least as long as the added
   * mappings and the second line, neither of them wanted. The new text lacks the comment and
   * is so much shorter that the whole second line stays behind it, and is restored twice.
   */
  lemma LongCommentLeavesTail(env: Env, ip1: Ip, h1: Host, comment: string, ip2: Ip, h2: Host,
                              wanted: map<Host, Ip>, order: seq<Host>)
    requires env.Valid() && GoodMappings(env, wanted) && Enumerates(order, wanted.Keys)
    requires env.GoodIp(ip1) && env.GoodHost(h1) && !env.CommentHost(h1) && !(h1 in wanted && wanted[h1] == ip1)
    requires env.GoodIp(ip2) && env.GoodHost(h2) && !env.CommentHost(h2) && !(h2 in wanted && wanted[h2] == ip2)
    requires COMMENT_MARKER !in comment && Clean(comment) && comment != ""
    requires var second := Line(Some(ip2), [h2], []).Show(env);
      && !Parse(env, LongFirst(env, ip1, h1, comment), false).overLimit && !Parse(env, second, false).overLimit
      && |comment| >= |MappingsText(ShowLines(env, MappingLines(order, wanted)), "\n")| + |second|
    ensures var first, second := LongFirst(env, ip1, h1, comment), Line(Some(ip2), [h2], []).Show(env);
      var text := TwoLines(first, second);
      && ScanLines(text) == [first, second]
      && RewriteLines(env, [first, second], wanted).mappings == wanted
      && AllFileUndoable(env, [first, second], "\n")
      && var r := RestoreLines(env, ScanLines(FileAfter(env, text, wanted, order, "\n")));
         !(r.Some? && Views(env, ScanLines(Join(r.value, env.LineEnding))) == Views(env, [first, second]))
  {
    hide Parse, RewriteLine, RewriteLines, RestoreLines, View, ScanLines, Line.Show, MappingLines, ShowLines, MappingsText, Clean,
      FileText, FileAfter, Tail, TwoLines, Terminated, Env.Valid, Env.GoodIp, Env.GoodHost, Join, IndexOf;
    var bare := Line(Some(ip1), [h1], []);
    var first, second := LongFirst(env, ip1, h1, comment), Line(Some(ip2), [h2], []).Show(env);
    OtherLineKept(env, ip1, h1, [comment], wanted);
    OtherLineKept(env, ip2, h2, [], wanted);
    RewriteTwo(env, first, second, wanted);
    assert [bare] + [Line(Some(ip2), [h2], [])] == [bare, Line(Some(ip2), [h2], [])];
    CommentedShow(env, ip1, h1, comment);
    SecondClean(env, ip2, h2);
    TwoLinesRead(first, second);
    WrittenLength(env, wanted, order, bare, Line(Some(ip2), [h2], []));
    var text := TwoLines(first, second);
    var written := FileText(env, RewriteLines(env, [first, second], wanted), order, "\n");
    TailOfTwo(first, second, written);
    LastNotDropped(env, ScanLines(first[|written|..] + "\n"), second);
    UndoFile(env, text, wanted, order, "\n");
  }

  lemma SecondClean(env: Env, ip: Ip, h: Host)
    requires env.GoodIp(ip) && env.GoodHost(h)
    ensures Clean(Line(Some(ip), [h], []).Show(env))
  {
    AddressClean(env, Line(Some(ip), [h], []));
  }

  lemma LastNotDropped(env: Env, lines: seq<string>, last: string)
    requires !Dropped(env, last)
    ensures !AllDropped(env, lines + [last])
  {
    hide Dropped;
    assert (lines + [last])[|lines|] == last;
  }

  /** A file at a path that is given: the new text goes behind the old one. */
  function GivenFileAfter(env: Env, text: string, wanted: map<Host, Ip>, order: seq<Host>, eol: string): string
    requires Enumerates(order, RewriteLines(env, ScanLines(text), wanted).mappings.Keys)
  {
    text + FileText(env, RewriteLines(env, ScanLines(text), wanted), order, eol)
  }

  /** Such a file keeps all its lines as they were, in front of those written, exactly when its last line was ended. */
  lemma GivenFileKeepsOld(env: Env, text: string, wanted: map<Host, Ip>, order: seq<Host>, eol: string)
    requires env.Valid() && GoodMappings(env, wanted) && IsEol(eol)
    requires Enumerates(order, RewriteLines(env, ScanLines(text), wanted).mappings.Keys)
    ensures ScanLines(GivenFileAfter(env, text, wanted, order, eol)) ==
        ScanLines(text) + RereadAll(WrittenLines(env, RewriteLines(env, ScanLines(text), wanted), order), eol)
      <==> EndsLine(text)
  {
    hide RewriteLines, ScanLines, MappingLines, Reread, RereadAll, Env.Valid, IsEol, EndsLine, FileText;
    var written := FileText(env, RewriteLines(env, ScanLines(text), wanted), order, eol);
    WrittenScanned(env, text, wanted, order, eol);
    if EndsLine(text) {
      ScanAppend(text, written);
    } else {
      EmptyScan();
      ScanRunsOn(text, written);
    }
  }

  /** The text written is read back as its lines. */
  lemma WrittenScanned(env: Env, text: string, wanted: map<Host, Ip>, order: seq<Host>, eol: string)
    requires env.Valid() && GoodMappings(env, wanted) && IsEol(eol)
    requires Enumerates(order, RewriteLines(env, ScanLines(text), wanted).mappings.Keys)
    ensures var rw := RewriteLines(env, ScanLines(text), wanted);
      && ScanLines(FileText(env, rw, order, eol)) == RereadAll(WrittenLines(env, rw, order), eol)
      && EndsLine(FileText(env, rw, order, eol))
  {
    hide RewriteLines, ScanLines, MappingLines, Reread, RereadAll, Env.Valid, IsEol, LineFeedFree, Line.Show;
    var rw := RewriteLines(env, ScanLines(text), wanted);
    ScanFree(text);
    RewriteLinesShrinks(env, ScanLines(text), wanted);
    RewrittenFree(env, ScanLines(text), wanted);
    MappingLinesClean(env, order, rw.mappings, eol);
    BlankReread(eol);
    FileTextTerminated(env, rw, order, eol);
    hide ShowLines, FileText, Terminated;
    ScanTerminated(WrittenLines(env, rw, order), eol);
    TerminatedEnds(WrittenLines(env, rw, order), eol);
  }

  lemma EnvEol(env: Env)
    ensures IsEol(env.LineEnding)
  {
  }

  lemma BlankReread(eol: string)
    ensures RereadAll([""], eol) == [""] && LineFeedFree("")
  {
    assert Reread("", eol) == "";
  }

  /** The blank line stays and the added lines go. */
  lemma RestoreBody(env: Env, body: seq<string>, added: seq<string>)
    requires RestoreLines(env, added) == Some([])
    ensures RestoreLines(env, body + [""] + added) == Concat(RestoreLines(env, body), Some([""]))
  {
    hide RestoreLine, Collect;
    RestoreAppend(env, body + [""], added);
    RestoreAppend(env, body, [""]);
    BlankLine(env);
    assert Outcomes(env, [""]) == [Keep("")];
    CollectShort(Some(""));
    var kept := RestoreLines(env, body);
    if kept.Some? {
      assert kept.value + [""] + [] == kept.value + [""];
    }
  }
}
