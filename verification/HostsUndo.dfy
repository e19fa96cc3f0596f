// The undo of a hosts-file change: rewriting a file and restoring it in place gives the
// file's entries back, and exactly when.
module HostsUndo {
  import opened Wrappers
  import opened Text
  import opened HostLine
  import opened HostsFile

  /** What a line means: an address with its hosts, or text that maps nothing. */
  datatype Entry = Mapping(ip: Ip, hosts: seq<Host>) | Plain(text: string)

  function View(env: Env, line: string): Entry {
    var p := Parse(env, line, true);
    if p.ok && p.line.ip.Some? then Mapping(p.line.ip.value, p.line.hosts) else Plain(line)
  }

  function Views(env: Env, lines: seq<string>): (views: seq<Entry>)
    ensures |views| == |lines|
    ensures forall i :: 0 <= i < |lines| ==> views[i] == View(env, lines[i])
  {
    seq(|lines|, i requires 0 <= i < |lines| => View(env, lines[i]))
  }

  /** The text already ends in the own mark, as a comment or alone. */
  predicate OwnMarked(text: string) {
    var parts := Split(text, COMMENT_MARKER);
    parts[|parts| - 1] == MARKING
  }

  /**
   * The lines whose meaning survives: those with an address, and the others when they
   * are not own-marked and, being comments, fit the line limit.
   */
  predicate Undoable(env: Env, line: string) {
    View(env, line).Mapping?
    || (!OwnMarked(line) && (line != "" && line[0] == COMMENT_MARKER ==> |line| <= env.MaxChars()))
  }

  predicate AllUndoable(env: Env, lines: seq<string>) {
    forall i :: 0 <= i < |lines| ==> Undoable(env, lines[i])
  }

  /** Text without its own mark; None when nothing would be left to print. */
  function Unmark(text: string): Option<string> {
    var parts := Split(text, COMMENT_MARKER);
    if !OwnMarked(text) then Some(text)
    else if |parts| == 1 then None
    else Some(Join(parts[..|parts| - 1], [COMMENT_MARKER]))
  }

  /** What comes back for a comment-only line: the comment, or what is left of it without its own mark. */
  function Unmarked(env: Env, l: Line): Option<string> {
    if l.Own() then l.WithoutOwnMarking().Uncommented(env) else Some(l.Show(env))
  }

  /** The one line that comes back for a line of the original file; None is a panic. */
  function Restored(env: Env, line: string, m: map<Host, Ip>): Option<string> {
    var p := Parse(env, line, false);
    if p.ok && p.line.ip.None? then
      Unmarked(env, p.line)
    else if !p.ok || p.overLimit then Unmark(line)
    else
      var taken := TakeMappings(p.line.ip.value, p.line.hosts, m);
      if |KeepHosts(env, p.line.hosts, taken.avoid)| < |p.line.hosts| then Unmark(p.line.Show(env))
      else Some(p.line.(comments := []).Show(env))
  }

  lemma LimitIrrelevant(env: Env, s: string)
    requires !Parse(env, s, false).overLimit
    ensures Parse(env, s, true) == Parse(env, s, false)
  {
  }

  /** A text kept on its own, or a panic. */
  function Alone(text: Option<string>): Option<seq<string>> {
    if text.None? then None else Some([text.value])
  }

  function OutcomeOf(text: Option<string>): LineOutcome {
    if text.None? then Panic else Keep(text.value)
  }

  lemma CollectShort(text: Option<string>)
    ensures Collect([]) == Some([])
    ensures Collect([Drop]) == Some([])
    ensures Collect([OutcomeOf(text)]) == Alone(text)
    ensures Collect([OutcomeOf(text), Drop]) == Alone(text)
  {
    assert [Drop][..0] == [];
    assert [OutcomeOf(text)][..0] == [];
    assert [OutcomeOf(text), Drop][..1] == [OutcomeOf(text)];
    assert text.Some? ==> [] + [text.value] == [text.value];
  }

  /** One printed line, or one followed by a line that is dropped. */
  lemma RestoreShown(env: Env, lines: seq<Line>, text: Option<string>)
    requires |lines| == 1 || (|lines| == 2 && RestoreLine(env, lines[1].Show(env)) == Drop)
    requires RestoreLine(env, lines[0].Show(env)) == OutcomeOf(text)
    ensures RestoreLines(env, ShowLines(env, lines)) == Alone(text)
  {
    hide RestoreLine, Collect;
    CollectShort(text);
    assert Outcomes(env, ShowLines(env, lines))
      == if |lines| == 1 then [OutcomeOf(text)] else [OutcomeOf(text), Drop];
  }

  /** The marked comment-only line that holds a whole text. */
  function MarkedText(text: string): Line {
    Line(None, [], Split(text, COMMENT_MARKER)).WithOwnMarking()
  }

  /** A text commented out with the own mark is restored to that text, less a mark of its own. */
  lemma RestoreCommentedText(env: Env, text: string)
    ensures RestoreLine(env, MarkedText(text).Show(env)) == OutcomeOf(Unmark(text))
  {
    hide Split, Join;
    var plain := Line(None, [], Split(text, COMMENT_MARKER));
    SplitFacts(text, COMMENT_MARKER);
    ParseShow(env, plain.WithOwnMarking());
    if !plain.Own() {
      MarkedComment(env, plain);
    }
    hide Parse;
  }

  lemma RestoreMarkedAddress(env: Env, ip: Ip, hosts: seq<Host>)
    requires env.GoodIp(ip) && hosts != []
    requires forall i :: 0 <= i < |hosts| ==> env.GoodHost(hosts[i])
    ensures RestoreLine(env, Line(Some(ip), hosts, []).WithOwnMarking().Show(env)) == Drop
    ensures var l := Line(Some(ip), hosts, []); RestoreLine(env, l.Show(env)) == Keep(l.Show(env))
  {
    ParseShow(env, Line(Some(ip), hosts, []).WithOwnMarking());
    ParseShow(env, Line(Some(ip), hosts, []));
  }

  /** Every line of the file comes back as one line, or the pass panics on it. */
  lemma RestoreRewritten(env: Env, line: string, m: map<Host, Ip>)
    requires env.Valid()
    ensures RestoreLines(env, ShowLines(env, RewriteLine(env, line, m).lines)) == Alone(Restored(env, line, m))
  {
    hide RestoreLine, RestoreLines, Unmark, TakeMappings, KeepHosts, Split, Fields;
    var p := Parse(env, line, false);
    CommentTextOk(env, line);
    if !p.ok {
      RestoreCommentedText(env, line);
      assert RewriteLine(env, line, m).lines == [MarkedText(line)];
      RestoreShown(env, [MarkedText(line)], Unmark(line));
    } else {
      ParseWellFormed(env, line, false);
      if p.line.ip.None? {
        assert RewriteLine(env, line, m).lines == [p.line];
        RestorePlainLine(env, line, m);
      } else {
        RestoreRewrittenAddress(env, line, m);
      }
    }
  }

  lemma RestorePlainLine(env: Env, line: string, m: map<Host, Ip>)
    requires env.Valid()
    requires var p := Parse(env, line, false); p.ok && p.line.ip.None?
    ensures RestoreLines(env, ShowLines(env, [Parse(env, line, false).line])) == Alone(Restored(env, line, m))
  {
    ParseWellFormed(env, line, false);
    hide RestoreLines, TakeMappings, KeepHosts, Split, Fields;
    var l := Parse(env, line, false).line;
    ParseShow(env, l);
    RestoreShown(env, [l], Restored(env, line, m));
  }

  /** The text an address line is commented out as. */
  function CommentedSource(env: Env, line: string): string {
    var p := Parse(env, line, false);
    if p.overLimit then line else p.line.Show(env)
  }

  function KeptLine(env: Env, line: string, m: map<Host, Ip>): Line
    requires Parse(env, line, false).line.ip.Some?
  {
    var l := Parse(env, line, false).line;
    Line(l.ip, KeepHosts(env, l.hosts, TakeMappings(l.ip.value, l.hosts, m).avoid), [])
  }

  /** An address line is kept whole, or commented out with its remaining hosts on a marked line. */
  lemma AddressLines(env: Env, line: string, m: map<Host, Ip>)
    requires var p := Parse(env, line, false); p.ok && p.line.ip.Some? && p.line.WellFormed(env)
    ensures var p := Parse(env, line, false); var active := KeptLine(env, line, m);
      RewriteLine(env, line, m).lines ==
        if p.overLimit || |active.hosts| < |p.line.hosts| then
          [MarkedText(CommentedSource(env, line))] + (if active.hosts == [] then [] else [active.WithOwnMarking()])
        else [active]
  {
    hide Parse, KeepHosts, TakeMappings, Split;
    CommentTextOk(env, line);
    var p := Parse(env, line, false);
    CommentOutAddress(env, p.line);
    hide Line.Show;
    var active := KeptLine(env, line, m);
    var lines := RewriteLine(env, line, m).lines;
    if p.overLimit || |active.hosts| < |p.line.hosts| {
      assert lines == [MarkedText(CommentedSource(env, line))]
        + (if active.hosts == [] then [] else [active.WithOwnMarking()]);
    } else {
      assert lines == [active];
    }
  }

  lemma RestoreRewrittenAddress(env: Env, line: string, m: map<Host, Ip>)
    requires env.Valid()
    requires var p := Parse(env, line, false); p.ok && p.line.ip.Some? && p.line.WellFormed(env)
    ensures RestoreLines(env, ShowLines(env, RewriteLine(env, line, m).lines)) == Alone(Restored(env, line, m))
  {
    hide RestoreLine, RestoreLines, RewriteLine, Unmark, TakeMappings, KeepHosts, Parse, Split;
    AddressLines(env, line, m);
    var p := Parse(env, line, false);
    var active := KeptLine(env, line, m);
    if active.hosts != [] {
      RestoreMarkedAddress(env, active.ip.value, active.hosts);
    }
    if p.overLimit || |active.hosts| < |p.line.hosts| {
      var text := CommentedSource(env, line);
      RestoreCommentedText(env, text);
      RestoreShown(env, RewriteLine(env, line, m).lines, Unmark(text));
    } else {
      RestoreShown(env, [active], Some(active.Show(env)));
    }
  }

  lemma PlainRewritten(env: Env, line: string, m: map<Host, Ip>)
    requires var p := Parse(env, line, false); !p.ok || p.line.ip.None?
    ensures var p := Parse(env, line, false);
      RewriteLine(env, line, m).lines == [if p.ok then p.line else MarkedText(line)]
  {
    CommentTextOk(env, line);
    hide Parse, Split;
  }

  lemma MarkOnly(l: Line)
    requires l.comments == []
    ensures l.WithOwnMarking() == l.(comments := [MARKING])
  {
  }

  // ---------- what the restored line means ----------

  lemma HeadOfMarked(t: string)
    ensures Head(t + [COMMENT_MARKER] + MARKING) == Head(t)
  {
    var i := IndexOf(t, COMMENT_MARKER);
    hide IndexOf;
    var s := t + [COMMENT_MARKER] + MARKING;
    if i == |t| {
      IndexOfAppend(t, COMMENT_MARKER, MARKING);
      assert s[..i] == t && t[..i] == t;
    } else {
      CutAt(t, i, COMMENT_MARKER, MARKING);
      IndexOfAppend(t[..i], COMMENT_MARKER, t[i + 1..] + [COMMENT_MARKER] + MARKING);
      assert s[..i] == t[..i];
    }
  }

  /** The entry of an address line depends only on the text before its comments. */
  lemma ViewByHead(env: Env, a: string, b: string)
    requires Head(a) == Head(b)
    ensures View(env, a).Mapping? ==> View(env, b) == View(env, a)
  {
  }

  lemma UnmarkView(env: Env, text: string)
    requires OwnMarked(text)
    ensures Unmark(text).Some? ==> |Unmark(text).value| < |text|
    ensures View(env, text).Mapping? ==>
      Unmark(text).Some? && View(env, Unmark(text).value) == View(env, text)
  {
    hide View, Parse, Head, Split;
    var parts := Split(text, COMMENT_MARKER);
    JoinSplit(text, COMMENT_MARKER);
    if |parts| == 1 {
      MarkingIsToken(env);
      OneTokenMapsNothing(env, text);
    } else {
      var t := Join(parts[..|parts| - 1], [COMMENT_MARKER]);
      JoinAppend(parts[..|parts| - 1], MARKING, [COMMENT_MARKER]);
      assert parts == parts[..|parts| - 1] + [MARKING];
      HeadOfMarked(t);
      ViewByHead(env, text, t);
    }
  }

  lemma OneTokenMapsNothing(env: Env, s: string)
    requires env.Token(s)
    ensures View(env, s) == Plain(s)
  {
    assert s[..|s|] == s;
    FieldsToken(s, "");
    assert s + "" == s;
  }

  lemma CommentsOfComment(line: string)
    requires line != "" && line[0] == COMMENT_MARKER
    ensures Comments(line) == Split(line[1..], COMMENT_MARKER)
  {
    hide Split;
    assert IndexOf(line, COMMENT_MARKER) == 0;
  }

  lemma OwnMarkedComment(line: string)
    requires line != "" && line[0] == COMMENT_MARKER
    ensures Comments(line) == Split(line[1..], COMMENT_MARKER)
    ensures OwnMarked(line) <==> Line(None, [], Comments(line)).Own()
    ensures [COMMENT_MARKER] + Join(Comments(line), [COMMENT_MARKER]) == line
  {
    hide Split, Join, Comments, Head;
    CommentsOfComment(line);
    JoinSplit(line[1..], COMMENT_MARKER);
    SplitAtMarker(line);
  }

  /** The parse of a line that starts with the marker, or is empty. */
  lemma CommentOnlyParse(env: Env, line: string)
    ensures var p := Parse(env, line, false);
      p.ok && p.line.ip.None? <==> line == "" || line[0] == COMMENT_MARKER
    ensures line == "" || line[0] == COMMENT_MARKER ==> View(env, line) == Plain(line)
  {
    var used := if |line| > env.MaxChars() then line[..env.MaxChars()] else line;
    if line != "" {
      assert used[0] == line[0];
      assert Head(used) == "" <==> IndexOf(used, COMMENT_MARKER) == 0;
      assert Head(line) == "" <==> IndexOf(line, COMMENT_MARKER) == 0;
    }
  }

  /** A comment-only line is printed as its parts behind markers; without the own mark it gets shorter. */
  lemma ShowComment(env: Env, comments: seq<string>)
    requires comments != []
    ensures var l := Line(None, [], comments);
      && l.Show(env) == [COMMENT_MARKER] + Join(comments, [COMMENT_MARKER])
      && (l.Own() && l.WithoutOwnMarking().Uncommented(env).Some? ==>
          |l.WithoutOwnMarking().Uncommented(env).value| < |l.Show(env)|)
  {
    hide Join;
    var l := Line(None, [], comments);
    assert "" + "" + [COMMENT_MARKER] + Join(comments, [COMMENT_MARKER])
      == [COMMENT_MARKER] + Join(comments, [COMMENT_MARKER]);
    if l.Own() && |comments| > 1 {
      var init := comments[..|comments| - 1];
      assert comments == init + [MARKING];
      JoinAppend(init, MARKING, [COMMENT_MARKER]);
    }
  }

  /** The part of a line the parser reads. */
  function Used(env: Env, line: string): string {
    if |line| > env.MaxChars() then line[..env.MaxChars()] else line
  }

  /** A comment comes back from the part of it that was read. */
  lemma RestoredIsUnmarked(env: Env, line: string, m: map<Host, Ip>)
    requires line != "" && line[0] == COMMENT_MARKER
    ensures var used := Used(env, line);
      && used != "" && used[0] == COMMENT_MARKER
      && Restored(env, line, m) == Unmarked(env, Line(None, [], Comments(used)))
  {
    hide Split, Fields, TakeMappings, KeepHosts, Unmark, Unmarked, Comments;
    CommentOnlyParse(env, line);
  }

  /** What comes back for a comment, cut at the limit: all of it, or it less its own mark. */
  lemma RestoredComment(env: Env, line: string, m: map<Host, Ip>)
    requires line != "" && line[0] == COMMENT_MARKER
    ensures var used := Used(env, line);
      && (!OwnMarked(used) ==> Restored(env, line, m) == Some(used))
      && (OwnMarked(used) && Restored(env, line, m).Some? ==> |Restored(env, line, m).value| < |used|)
  {
    hide Split, Join, Restored, Comments, OwnMarked;
    RestoredIsUnmarked(env, line, m);
    OwnMarkedComment(Used(env, line));
    ShowComment(env, Comments(Used(env, line)));
  }

  lemma ShowView(env: Env, l: Line)
    requires l.WellFormed(env) && l.ip.Some?
    ensures View(env, l.Show(env)) == Mapping(l.ip.value, l.hosts)
  {
    ParseShow(env, l);
  }

  lemma RestoredAddress(env: Env, line: string, m: map<Host, Ip>)
    requires env.Valid()
    requires var p := Parse(env, line, false); p.ok && p.line.ip.Some? && !p.overLimit
    ensures View(env, line).Mapping?
    ensures Restored(env, line, m).Some? && View(env, Restored(env, line, m).value) == View(env, line)
  {
    hide Parse, Split, Join, TakeMappings, KeepHosts, OwnMarked, Line.Show, Env.Valid;
    var p := Parse(env, line, false);
    LimitIrrelevant(env, line);
    ParseWellFormed(env, line, false);
    ShowView(env, p.line);
    ShowView(env, p.line.(comments := []));
    if OwnMarked(p.line.Show(env)) {
      UnmarkView(env, p.line.Show(env));
    }
  }

  /** A line comes back with its meaning exactly when it is undoable. */
  lemma RestoredMeaning(env: Env, line: string, m: map<Host, Ip>)
    requires env.Valid()
    ensures Undoable(env, line) <==>
      Restored(env, line, m).Some? && View(env, Restored(env, line, m).value) == View(env, line)
  {
    hide Split, Join, Fields, TakeMappings, KeepHosts, Unmarked, IndexOf;
    var p := Parse(env, line, false);
    CommentOnlyParse(env, line);
    if line == "" {
      BlankLine(env);
    } else if line[0] == COMMENT_MARKER {
      RestoredComment(env, line, m);
    } else if p.ok && !p.overLimit {
      RestoredAddress(env, line, m);
    } else if OwnMarked(line) {
      UnmarkView(env, line);
    }
  }

  lemma BlankLine(env: Env)
    ensures RestoreLine(env, "") == Keep("")
    ensures View(env, "") == Plain("") && Undoable(env, "")
    ensures Parse(env, "", false) == Parsed(true, false, Line(None, [], []))
    ensures Unmarked(env, Line(None, [], [])) == Some("")
  {
    assert Split("", COMMENT_MARKER) == [""];
  }

  /** The launcher's name alone on a line, bare or as a comment. */
  predicate NameAlone(line: string) {
    line == MARKING || line == [COMMENT_MARKER] + MARKING
  }

  lemma UnmarkPanics(env: Env, text: string)
    ensures Unmark(text) == None <==> text == MARKING
  {
    hide Split, Join;
    MarkingParts(env);
    JoinSplit(text, COMMENT_MARKER);
    JoinOne(MARKING, [COMMENT_MARKER]);
    if Unmark(text) == None {
      assert Split(text, COMMENT_MARKER) == [MARKING];
    }
  }

  lemma UnmarkedPanics(env: Env, comments: seq<string>)
    ensures Unmarked(env, Line(None, [], comments)) == None <==> comments == [MARKING]
  {
    hide Join;
  }

  /** A comment cannot be uncommented only when it is the launcher's name. */
  lemma CommentPanics(env: Env, line: string, m: map<Host, Ip>)
    requires line != "" && line[0] == COMMENT_MARKER
    ensures Restored(env, line, m) == None <==> line == [COMMENT_MARKER] + MARKING
  {
    hide Split, Join, Restored, Comments, OwnMarked, Unmarked;
    var used := Used(env, line);
    RestoredIsUnmarked(env, line, m);
    UnmarkedPanics(env, Comments(used));
    OwnMarkedComment(used);
    MarkingParts(env);
    JoinOne(MARKING, [COMMENT_MARKER]);
    if line == [COMMENT_MARKER] + MARKING {
      assert used[1..] == MARKING;
    }
  }

  lemma NameMapsNothing(env: Env)
    ensures View(env, MARKING) == Plain(MARKING)
  {
    MarkingIsToken(env);
    OneTokenMapsNothing(env, MARKING);
  }

  lemma RestoredText(env: Env, line: string, m: map<Host, Ip>)
    requires var p := Parse(env, line, false); !p.ok || (p.line.ip.Some? && p.overLimit)
    ensures Restored(env, line, m) == Unmark(line)
  {
  }

  /** The restore pass panics exactly on the launcher's name alone on a line. */
  lemma NameAlonePanics(env: Env, line: string, m: map<Host, Ip>)
    requires env.Valid()
    ensures Restored(env, line, m) == None <==> NameAlone(line)
  {
    hide Parse, View, Unmark, Restored, Env.Valid;
    var p := Parse(env, line, false);
    CommentOnlyParse(env, line);
    if line == "" {
      EmptyRestored(env, m);
    } else if line[0] == COMMENT_MARKER {
      CommentPanics(env, line, m);
    } else if p.ok && !p.overLimit {
      RestoredAddress(env, line, m);
      NameMapsNothing(env);
    } else {
      RestoredText(env, line, m);
      UnmarkPanics(env, line);
    }
  }

  lemma EmptyRestored(env: Env, m: map<Host, Ip>)
    ensures Restored(env, "", m) == Some("")
  {
    BlankLine(env);
    hide Parse, Unmarked;
  }

  // ---------- the whole file ----------

  lemma {:induction false} UndoRewrite(env: Env, lines: seq<string>, m: map<Host, Ip>)
    requires env.Valid()
    ensures var r := RestoreLines(env, ShowLines(env, RewriteLines(env, lines, m).lines));
      && (r.Some? ==> |r.value| == |lines|)
      && (AllUndoable(env, lines) <==>
          r.Some? && Views(env, r.value) == Views(env, lines))
  {
    hide Parse, RestoreLine, Restored, RewriteLine, View, Undoable;
    if lines == [] {
      assert ShowLines(env, []) == [];
      assert Outcomes(env, []) == [];
    } else {
      var n := |lines| - 1;
      UndoRewrite(env, lines[..n], m);
      var before := RewriteLines(env, lines[..n], m);
      var last := RewriteLine(env, lines[n], before.mappings);
      assert ShowLines(env, before.lines + last.lines) == ShowLines(env, before.lines) + ShowLines(env, last.lines);
      RestoreAppend(env, ShowLines(env, before.lines), ShowLines(env, last.lines));
      RestoreRewritten(env, lines[n], before.mappings);
      RestoredMeaning(env, lines[n], before.mappings);
      UndoStep(env, lines, RestoreLines(env, ShowLines(env, before.lines)), Restored(env, lines[n], before.mappings));
    }
  }

  /** Joining what came back for all lines but the last with what came back for the last. */
  lemma UndoStep(env: Env, lines: seq<string>, before: Option<seq<string>>, last: Option<string>)
    requires lines != []
    requires before.Some? ==> |before.value| == |lines| - 1
    requires AllUndoable(env, lines[..|lines| - 1]) <==>
      before.Some? && Views(env, before.value) == Views(env, lines[..|lines| - 1])
    requires Undoable(env, lines[|lines| - 1]) <==>
      last.Some? && View(env, last.value) == View(env, lines[|lines| - 1])
    ensures var r := Concat(before, Alone(last));
      && (r.Some? ==> |r.value| == |lines|)
      && (AllUndoable(env, lines) <==>
          r.Some? && Views(env, r.value) == Views(env, lines))
  {
    hide Parse, View, Undoable;
    var n := |lines| - 1;
    var r := Concat(before, Alone(last));
    assert AllUndoable(env, lines) <==> AllUndoable(env, lines[..n]) && Undoable(env, lines[n]) by {
      assert forall i :: 0 <= i < n ==> lines[..n][i] == lines[i];
    }
    assert Views(env, lines) == Views(env, lines[..n]) + [View(env, lines[n])];
    if r.Some? {
      assert Views(env, r.value) == Views(env, before.value) + [View(env, last.value)];
      assert Views(env, r.value)[..n] == Views(env, before.value);
      assert Views(env, lines)[..n] == Views(env, lines[..n]);
    }
  }

  lemma {:induction false} MappingLinesDropped(env: Env, order: seq<Host>, m: map<Host, Ip>)
    requires forall i :: 0 <= i < |order| ==> order[i] in m
    requires forall i :: 0 <= i < |order| ==> env.GoodHost(order[i]) && env.GoodIp(m[order[i]])
    ensures RestoreLines(env, ShowLines(env, MappingLines(order, m))) == Some([])
  {
    hide Parse, RestoreLine, Collect;
    if order == [] {
      assert Outcomes(env, ShowLines(env, MappingLines(order, m))) == [];
      CollectShort(None);
    } else {
      var n := |order| - 1;
      MappingLinesDropped(env, order[..n], m);
      var init := ShowLines(env, MappingLines(order[..n], m));
      var last := Line(Some(m[order[n]]), [order[n]], [MARKING]).Show(env);
      RestoreMarkedAddress(env, m[order[n]], [order[n]]);
      assert Line(Some(m[order[n]]), [order[n]], []).WithOwnMarking().comments == [MARKING];
      assert ShowLines(env, MappingLines(order, m)) == init + [last];
      RestoreAppend(env, init, [last]);
      assert Outcomes(env, [last]) == [Drop];
      CollectShort(None);
      var none: seq<string> := [];
      assert none + none == none;
    }
  }

  lemma {:induction false} RewriteLinesShrinks(env: Env, lines: seq<string>, m: map<Host, Ip>)
    ensures var r := RewriteLines(env, lines, m).mappings;
      r.Keys <= m.Keys && forall h :: h in r ==> r[h] == m[h]
  {
    hide Parse;
    if lines != [] {
      RewriteLinesShrinks(env, lines[..|lines| - 1], m);
    }
  }

  predicate AnyNameAlone(lines: seq<string>) {
    exists i :: 0 <= i < |lines| && NameAlone(lines[i])
  }

  lemma AnyNameAloneLast(lines: seq<string>)
    requires lines != []
    ensures var n := |lines| - 1; AnyNameAlone(lines) <==> AnyNameAlone(lines[..n]) || NameAlone(lines[n])
  {
    hide NameAlone;
    var n := |lines| - 1;
    if i :| 0 <= i < n && NameAlone(lines[i]) {
      assert NameAlone(lines[..n][i]);
    }
    if i :| 0 <= i < n && NameAlone(lines[..n][i]) {
      assert NameAlone(lines[i]);
    }
  }

  /** Restoring rewritten lines panics exactly when one of them was the launcher's name alone. */
  lemma {:induction false} RewritePanics(env: Env, lines: seq<string>, m: map<Host, Ip>)
    requires env.Valid()
    ensures RestoreLines(env, ShowLines(env, RewriteLines(env, lines, m).lines)) == None <==> AnyNameAlone(lines)
  {
    hide Parse, RestoreLine, Restored, RewriteLine, NameAlone;
    if lines == [] {
      assert Outcomes(env, ShowLines(env, RewriteLines(env, lines, m).lines)) == [];
      CollectShort(None);
    } else {
      hide AnyNameAlone;
      var n := |lines| - 1;
      RewritePanics(env, lines[..n], m);
      var before := RewriteLines(env, lines[..n], m);
      var last := RewriteLine(env, lines[n], before.mappings);
      assert ShowLines(env, before.lines + last.lines) == ShowLines(env, before.lines) + ShowLines(env, last.lines);
      RestoreAppend(env, ShowLines(env, before.lines), ShowLines(env, last.lines));
      hide RestoreLines, ShowLines;
      RestoreRewritten(env, lines[n], before.mappings);
      NameAlonePanics(env, lines[n], before.mappings);
      AnyNameAloneLast(lines);
    }
  }

  predicate GoodMappings(env: Env, m: map<Host, Ip>) {
    forall h :: h in m ==> env.GoodHost(h) && env.GoodIp(m[h])
  }

  /**
   * AddHosts followed by the restore pass: the same entries, comments and unparseable
   * lines in the same order plus one blank line, exactly when every line is undoable.
   */
  lemma UndoAddHosts(env: Env, lines: seq<string>, wanted: map<Host, Ip>, order: seq<Host>)
    requires env.Valid() && GoodMappings(env, wanted)
    requires Enumerates(order, RewriteLines(env, lines, wanted).mappings.Keys)
    ensures var r := RestoreLines(env, WrittenLines(env, RewriteLines(env, lines, wanted), order));
      && (r.Some? ==> |r.value| == |lines| + 1)
      && (AllUndoable(env, lines) <==>
          r.Some? && Views(env, r.value) == Views(env, lines) + [Plain("")])
  {
    hide Parse, RestoreLine, Restored, RewriteLines, View, Undoable, Collect, MappingLines;
    var rw := RewriteLines(env, lines, wanted);
    RewriteLinesShrinks(env, lines, wanted);
    MappingLinesDropped(env, order, rw.mappings);
    UndoRewrite(env, lines, wanted);
    var body := ShowLines(env, rw.lines);
    RestoreAppend(env, body + [""], ShowLines(env, MappingLines(order, rw.mappings)));
    RestoreAppend(env, body, [""]);
    BlankLine(env);
    assert Outcomes(env, [""]) == [Keep("")];
    CollectShort(Some(""));
    var kept := RestoreLines(env, body);
    if kept.Some? {
      var all := kept.value + [""] + [];
      assert all == kept.value + [""];
      assert Views(env, all) == Views(env, kept.value) + [Plain("")];
      assert Views(env, all)[..|lines|] == Views(env, kept.value);
      assert (Views(env, lines) + [Plain("")])[..|lines|] == Views(env, lines);
    }
  }

  /** After AddHosts wrote the file, the restore pass panics exactly when some line was the launcher's name alone. */
  lemma AddHostsPanics(env: Env, lines: seq<string>, wanted: map<Host, Ip>, order: seq<Host>)
    requires env.Valid() && GoodMappings(env, wanted)
    requires Enumerates(order, RewriteLines(env, lines, wanted).mappings.Keys)
    ensures RestoreLines(env, WrittenLines(env, RewriteLines(env, lines, wanted), order)) == None <==> AnyNameAlone(lines)
  {
    hide Parse, RestoreLine, RewriteLines, Collect, MappingLines, AnyNameAlone;
    var rw := RewriteLines(env, lines, wanted);
    RewriteLinesShrinks(env, lines, wanted);
    MappingLinesDropped(env, order, rw.mappings);
    RewritePanics(env, lines, wanted);
    var body := ShowLines(env, rw.lines);
    RestoreAppend(env, body + [""], ShowLines(env, MappingLines(order, rw.mappings)));
    RestoreAppend(env, body, [""]);
    BlankLine(env);
    assert Outcomes(env, [""]) == [Keep("")];
    CollectShort(Some(""));
  }

  // ---------- a file that was not rewritten ----------

  /** A line the restore pass keeps as it is: it parses and has no own mark. */
  predicate Untouched(env: Env, line: string) {
    var p := Parse(env, line, true);
    p.ok && !p.line.Own()
  }

  predicate AllUntouched(env: Env, lines: seq<string>) {
    forall i :: 0 <= i < |lines| ==> Untouched(env, lines[i])
  }

  /** A line that is kept under another text was own-marked and only loses its mark. */
  lemma KeepShortens(env: Env, line: string)
    ensures RestoreLine(env, line).Keep? && !Untouched(env, line) ==>
      View(env, RestoreLine(env, line).text) != View(env, line)
    ensures Untouched(env, line) ==> RestoreLine(env, line) == Keep(line)
  {
    var p := Parse(env, line, true);
    if RestoreLine(env, line).Keep? && !Untouched(env, line) {
      var i := IndexOf(line, COMMENT_MARKER);
      assert Head(line) == "" && i == 0 && line != "";
      OwnMarkedComment(line);
      ShowComment(env, p.line.comments);
    }
  }

  /**
   * When every mapping was already there, AddHosts leaves the file alone; restoring then
   * keeps it exactly when every line parses and none is own-marked.
   */
  lemma {:induction false} RestoreUnwritten(env: Env, lines: seq<string>)
    ensures var r := RestoreLines(env, lines);
      && (r.Some? ==> |r.value| <= |lines|)
      && (AllUntouched(env, lines) <==> r.Some? && Views(env, r.value) == Views(env, lines))
      && (AllUntouched(env, lines) ==> r == Some(lines))
  {
    hide Parse, View, RestoreLine, Untouched;
    if lines == [] {
      assert Outcomes(env, lines) == [];
      CollectShort(None);
    } else {
      var n := |lines| - 1;
      RestoreUnwritten(env, lines[..n]);
      assert Outcomes(env, lines)[..n] == Outcomes(env, lines[..n]);
      KeepShortens(env, lines[n]);
      assert AllUntouched(env, lines) <==> AllUntouched(env, lines[..n]) && Untouched(env, lines[n]) by {
        assert forall i :: 0 <= i < n ==> lines[..n][i] == lines[i];
      }
      UnwrittenStep(env, lines, RestoreLines(env, lines[..n]), RestoreLine(env, lines[n]));
    }
  }

  lemma UnwrittenStep(env: Env, lines: seq<string>, before: Option<seq<string>>, last: LineOutcome)
    requires lines != []
    requires before.Some? ==> |before.value| <= |lines| - 1
    ensures var r := Extend(before, last); var n := |lines| - 1;
      && (r.Some? ==> |r.value| <= |lines|)
      && (before == Some(lines[..n]) && last == Keep(lines[n]) ==> r == Some(lines))
      && (r.Some? && Views(env, r.value) == Views(env, lines) <==>
          && before.Some? && Views(env, before.value) == Views(env, lines[..n])
          && last.Keep? && View(env, last.text) == View(env, lines[n]))
  {
    hide View;
    var n := |lines| - 1;
    var r := Extend(before, last);
    assert lines == lines[..n] + [lines[n]];
    assert Views(env, lines)[..n] == Views(env, lines[..n]);
    if r.Some? && last.Keep? {
      var k := |before.value|;
      assert Views(env, r.value)[..k] == Views(env, before.value);
      assert Views(env, r.value)[k] == View(env, last.text);
      assert Views(env, lines)[n] == View(env, lines[n]);
      if Views(env, before.value) == Views(env, lines[..n]) && View(env, last.text) == View(env, lines[n]) {
        assert k == |Views(env, lines[..n])| == n;
        assert Views(env, r.value) == Views(env, lines);
      }
    }
  }
  /** On a file left alone, the pass panics exactly on the comment that is the launcher's name. */
  lemma UnwrittenLinePanics(env: Env, line: string)
    ensures RestoreLine(env, line) == Panic <==> line == [COMMENT_MARKER] + MARKING
  {
    var p := Parse(env, line, true);
    if line == "" {
      BlankLine(env);
    } else if line[0] == COMMENT_MARKER {
      RestoredIsUnmarkedWhole(env, line);
      OwnMarkedComment(line);
      MarkingParts(env);
      JoinOne(MARKING, [COMMENT_MARKER]);
      UnmarkedPanics(env, Comments(line));
      hide Parse, Comments, Split, Join, Unmarked;
      if line == [COMMENT_MARKER] + MARKING {
        assert line[1..] == MARKING;
      }
    } else {
      hide Fields, Split, Comments;
      assert Head(line) != "";
    }
  }

  lemma RestoredIsUnmarkedWhole(env: Env, line: string)
    requires line != "" && line[0] == COMMENT_MARKER
    ensures RestoreLine(env, line) == Panic <==> Unmarked(env, Line(None, [], Comments(line))) == None
  {
    hide Split, Fields, Comments, Line.Show;
    assert IndexOf(line, COMMENT_MARKER) == 0;
    assert Parse(env, line, true).line == Line(None, [], Comments(line));
  }

  lemma UnwrittenPanics(env: Env, lines: seq<string>)
    ensures RestoreLines(env, lines) == None <==> [COMMENT_MARKER] + MARKING in lines
  {
    hide RestoreLine, Collect;
    var outcomes := Outcomes(env, lines);
    CollectPanics(outcomes);
    forall i | 0 <= i < |lines| ensures outcomes[i] == Panic <==> lines[i] == [COMMENT_MARKER] + MARKING {
      UnwrittenLinePanics(env, lines[i]);
    }
  }
}
