// One line of a hosts file: its parser, its printer, and the own-mark that the
// launcher leaves in a trailing comment (common/hosts/line.go, parser.go).
module HostLine {
  import opened Wrappers
  import opened Text

  const MARKING := "ageLANServer"
  const COMMENT_MARKER := '#'

  /** An address in the canonical form net.ParseIP returns, so that IP.Equal is equality. */
  datatype Ip = Ip(bytes: seq<int>)

  /** A decoded host name. */
  type Host = string

  datatype Platform = Unix | Windows

  /**
   * What the line code takes from outside: the platform, the machine's own host
   * name ("" when unknown), and the two text codecs. parseIp and showIp stand for
   * net.ParseIP and IP.String; parseHost and showHost for parseHost and Host.String.
   */
  datatype Env = Env(
    platform: Platform,
    hostname: Host,
    parseIp: string -> Option<Ip>,
    showIp: Ip -> string,
    parseHost: string -> Option<Host>,
    showHost: Host -> string)
  {
    const LineEnding: string := if platform.Unix? then "\n" else "\r\n"

    function MaxChars(): (n: nat)
      ensures n >= 255
    {
      if platform.Unix? then 256 - |LineEnding| else 0x7fff_ffff_ffff_ffff - |LineEnding|
    }

    function MaxHosts(): nat {
      if platform.Unix? then 0x7fff_ffff_ffff_ffff else 9
    }

    predicate CommentHost(h: Host) {
      platform.Unix? && h == hostname
    }

    // A printed token: it survives strings.Fields and holds no comment marker.
    predicate Token(s: string) {
      s != "" && SpaceFree(s) && COMMENT_MARKER !in s
    }

    predicate GoodIp(ip: Ip) {
      Token(showIp(ip)) && parseIp(showIp(ip)) == Some(ip)
    }

    predicate GoodHost(h: Host) {
      Token(showHost(h)) && parseHost(showHost(h)) == Some(h)
    }

    // The codecs are inverse on what the parsers produce from a token.
    ghost predicate Valid() {
      && (forall s :: Token(s) && parseIp(s).Some? ==> GoodIp(parseIp(s).value))
      && (forall s :: Token(s) && parseHost(s).Some? ==> GoodHost(parseHost(s).value))
    }
  }

  datatype Line = Line(ip: Option<Ip>, hosts: seq<Host>, comments: seq<string>) {
    predicate Own() {
      comments != [] && comments[|comments| - 1] == MARKING
    }

    predicate OnlyComments() {
      ip.None? && hosts == []
    }

    function WithOwnMarking(): Line {
      if Own() then this else this.(comments := comments + [MARKING])
    }

    function WithoutOwnMarking(): Line {
      if Own() then this.(comments := comments[..|comments| - 1]) else this
    }

    function Body(env: Env): string {
      if ip.None? then "" else env.showIp(ip.value) + "\t" + Join(ShowHosts(env, hosts), " ")
    }

    function Show(env: Env): string {
      if comments == [] then Body(env)
      else Body(env) + (if Body(env) == "" then "" else " ") + [COMMENT_MARKER] + Join(comments, [COMMENT_MARKER])
    }

    /** None when the source indexes an empty comment list and panics. */
    function Uncommented(env: Env): Option<string> {
      if !OnlyComments() then Some(Show(env))
      else if comments == [] then None
      else Some(Join(comments, [COMMENT_MARKER]))
    }

    function Commented(env: Env): Option<Line> {
      if OnlyComments() then Some(this)
      else
        var p := Parse(env, [COMMENT_MARKER] + Show(env), true);
        if p.ok then Some(p.line) else None
    }

    /** A line the printer can represent: an address comes with hosts, and comments hold no marker. */
    predicate WellFormed(env: Env) {
      && (if ip.Some? then env.GoodIp(ip.value) && hosts != [] else hosts == [])
      && (forall i :: 0 <= i < |hosts| ==> env.GoodHost(hosts[i]))
      && (forall i :: 0 <= i < |comments| ==> COMMENT_MARKER !in comments[i])
    }
  }

  function ShowHosts(env: Env, hosts: seq<Host>): (shown: seq<string>)
    ensures |shown| == |hosts|
    ensures forall i :: 0 <= i < |hosts| ==> shown[i] == env.showHost(hosts[i])
  {
    seq(|hosts|, i requires 0 <= i < |hosts| => env.showHost(hosts[i]))
  }

  datatype Parsed = Parsed(ok: bool, overLimit: bool, line: Line)

  /** The part of a line before its first comment marker. */
  function Head(s: string): string {
    s[..IndexOf(s, COMMENT_MARKER)]
  }

  function Comments(s: string): seq<string> {
    var i := IndexOf(s, COMMENT_MARKER);
    if i == |s| then [] else Split(s[i + 1..], COMMENT_MARKER)
  }

  function ParseHosts(env: Env, tokens: seq<string>): seq<Host> {
    if tokens == [] then []
    else
      var last := |tokens| - 1;
      var before := ParseHosts(env, tokens[..last]);
      match env.parseHost(tokens[last])
      case Some(h) => before + [h]
      case None => before
  }

  /** What ParseLine returns; ParseLine below computes it. */
  function Parse(env: Env, line: string, ignoreLimit: bool): Parsed {
    var overChars := !ignoreLimit && |line| > env.MaxChars();
    var used := if overChars then line[..env.MaxChars()] else line;
    var bare := Line(None, [], Comments(used));
    var fields := Fields(Head(used));
    if Head(used) == "" then Parsed(true, overChars, bare)
    else if |fields| < 2 then Parsed(false, overChars, bare)
    else
      match env.parseIp(fields[0])
      case None => Parsed(false, overChars, bare)
      case Some(ip) =>
        var overHosts := !ignoreLimit && |fields| - 1 > env.MaxHosts();
        var tokens := if overHosts then fields[1..][..env.MaxHosts()] else fields[1..];
        var hosts := ParseHosts(env, tokens);
        Parsed(hosts != [], overChars || overHosts, bare.(ip := Some(ip), hosts := hosts))
  }

  /** The host loop of ParseLine: names that do not parse are skipped. */
  method ParseHostTokens(env: Env, tokens: seq<string>) returns (hosts: seq<Host>)
    ensures hosts == ParseHosts(env, tokens)
  {
    hosts := [];
    for i := 0 to |tokens|
      invariant hosts == ParseHosts(env, tokens[..i])
    {
      assert tokens[..i + 1][..i] == tokens[..i];
      var parsed := env.parseHost(tokens[i]);
      if parsed.Some? {
        hosts := hosts + [parsed.value];
      }
    }
    assert tokens[..|tokens|] == tokens;
  }

  /** ParseLine, with its character limit, its host limit and the host loop. */
  method ParseLine(env: Env, line: string, ignoreLimit: bool) returns (ok: bool, overLimit: bool, l: Line)
    ensures Parsed(ok, overLimit, l) == Parse(env, line, ignoreLimit)
  {
    l := Line(None, [], []);
    ok, overLimit := false, false;
    var maxChars := if ignoreLimit then |line| else env.MaxChars();
    var usableLength := |line|;
    if |line| > maxChars {
      overLimit := true;
      usableLength := maxChars;
    }
    assert line[..|line|] == line;
    var used := line[..usableLength];
    l := l.(comments := Comments(used));
    var withoutComment := Head(used);
    if withoutComment == "" {
      ok := true;
      return;
    }
    var fields := Fields(withoutComment);
    if |fields| < 2 {
      return;
    }
    var ip := env.parseIp(fields[0]);
    if ip.None? {
      return;
    }
    l := l.(ip := ip);
    var tokens := fields[1..];
    var maxHosts := if ignoreLimit then |tokens| else env.MaxHosts();
    var usableHosts := |tokens|;
    if |tokens| > maxHosts {
      overLimit := true;
      usableHosts := maxHosts;
    }
    assert tokens[..|tokens|] == tokens;
    var hosts := ParseHostTokens(env, tokens[..usableHosts]);
    l := l.(hosts := hosts);
    ok := |hosts| > 0;
  }

  // ---------- reading back what the printer wrote ----------

  lemma {:induction false} ParseHostsGood(env: Env, tokens: seq<string>)
    requires env.Valid() && forall i :: 0 <= i < |tokens| ==> env.Token(tokens[i])
    ensures forall i :: 0 <= i < |ParseHosts(env, tokens)| ==> env.GoodHost(ParseHosts(env, tokens)[i])
  {
    if tokens != [] {
      ParseHostsGood(env, tokens[..|tokens| - 1]);
    }
  }

  lemma {:induction false} ParseShownHosts(env: Env, hosts: seq<Host>)
    requires forall i :: 0 <= i < |hosts| ==> env.GoodHost(hosts[i])
    ensures ParseHosts(env, ShowHosts(env, hosts)) == hosts
  {
    if hosts != [] {
      var n := |hosts| - 1;
      ParseShownHosts(env, hosts[..n]);
      assert ShowHosts(env, hosts)[..n] == ShowHosts(env, hosts[..n]);
    }
  }

  /** Splitting at the first marker separates a marker-free body from its comments. */
  lemma HeadAndComments(body: string, comments: seq<string>)
    requires COMMENT_MARKER !in body
    requires forall i :: 0 <= i < |comments| ==> COMMENT_MARKER !in comments[i]
    ensures comments == [] ==> Head(body) == body && Comments(body) == []
    ensures comments != [] ==>
      var s := body + [COMMENT_MARKER] + Join(comments, [COMMENT_MARKER]);
      Head(s) == body && Comments(s) == comments
  {
    if comments == [] {
      assert body[..|body|] == body;
    } else {
      var tail := Join(comments, [COMMENT_MARKER]);
      IndexOfAppend(body, COMMENT_MARKER, tail);
      SplitJoin(comments, COMMENT_MARKER);
    }
  }

  lemma {:induction false} JoinClean(parts: seq<string>, sep: string, c: char)
    requires c !in sep
    requires forall i :: 0 <= i < |parts| ==> c !in parts[i]
    ensures c !in Join(parts, sep)
  {
    if |parts| > 1 {
      JoinClean(parts[1..], sep, c);
    }
  }

  lemma BodyFields(env: Env, l: Line)
    requires l.WellFormed(env) && l.ip.Some?
    ensures Fields(l.Body(env)) == [env.showIp(l.ip.value)] + ShowHosts(env, l.hosts)
    ensures l.Body(env) != "" && COMMENT_MARKER !in l.Body(env)
  {
    var shown := ShowHosts(env, l.hosts);
    var rest := Join(shown, " ");
    FieldsJoin(shown);
    JoinClean(shown, " ", COMMENT_MARKER);
    var ip := env.showIp(l.ip.value);
    FieldsToken(ip, "\t" + rest);
    assert ip + "\t" + rest == ip + ("\t" + rest);
    assert ("\t" + rest)[1..] == rest;
  }

  /** ParseLine(l.String(), true) gives back l. */
  lemma ParseShow(env: Env, l: Line)
    requires l.WellFormed(env)
    ensures Parse(env, l.Show(env), true) == Parsed(true, false, l)
  {
    var body := l.Body(env);
    if l.ip.None? {
      HeadAndComments("", l.comments);
      assert "" + "" + [COMMENT_MARKER] + Join(l.comments, [COMMENT_MARKER])
        == "" + [COMMENT_MARKER] + Join(l.comments, [COMMENT_MARKER]);
    } else {
      BodyFields(env, l);
      ParseShownHosts(env, l.hosts);
      var fields := [env.showIp(l.ip.value)] + ShowHosts(env, l.hosts);
      assert fields[1..] == ShowHosts(env, l.hosts);
      if l.comments == [] {
        HeadAndComments(body, []);
      } else {
        HeadAndComments(body + " ", l.comments);
        FieldsTrailing(body, ' ');
      }
    }
  }

  /** Cutting a line at all its markers gives its head and then its comments. */
  lemma SplitAtMarker(s: string)
    ensures Comments(s) == [] ==> Split(s, COMMENT_MARKER) == [s]
    ensures Comments(s) != [] ==> Split(s, COMMENT_MARKER) == [Head(s)] + Comments(s)
    ensures forall i :: 0 <= i < |Comments(s)| ==> COMMENT_MARKER !in Comments(s)[i]
  {
    var i := IndexOf(s, COMMENT_MARKER);
    if i < |s| {
      SplitPartsClean(s[i + 1..], COMMENT_MARKER);
      assert s == s[..i] + [COMMENT_MARKER] + s[i + 1..];
      SplitHead(s[..i], COMMENT_MARKER, s[i + 1..]);
    }
  }

  /** The fields in front of the comments are tokens. */
  lemma FieldsAreTokens(env: Env, s: string)
    ensures forall i :: 0 <= i < |Fields(Head(s))| ==> env.Token(Fields(Head(s))[i])
  {
    FieldsClean(Head(s));
    FieldsWithout(Head(s), COMMENT_MARKER);
    hide Fields;
  }

  lemma HeadTokens(env: Env, fields: seq<string>, tokens: seq<string>)
    requires env.Valid() && fields != [] && forall i :: 0 <= i < |fields| ==> env.Token(fields[i])
    requires tokens <= fields[1..]
    ensures env.parseIp(fields[0]).Some? ==> env.GoodIp(env.parseIp(fields[0]).value)
    ensures forall i :: 0 <= i < |ParseHosts(env, tokens)| ==> env.GoodHost(ParseHosts(env, tokens)[i])
  {
    hide ParseHosts;
    assert forall i :: 0 <= i < |tokens| ==> tokens[i] == fields[1..][i] == fields[1 + i];
    ParseHostsGood(env, tokens);
  }

  /** What the parser returns for an accepted line can be printed and read back. */
  lemma ParseWellFormed(env: Env, s: string, ignoreLimit: bool)
    requires env.Valid()
    requires Parse(env, s, ignoreLimit).ok
    ensures Parse(env, s, ignoreLimit).line.WellFormed(env)
  {
    hide Split, Fields, IndexOf, Comments, ParseHosts, Head, Env.Valid;
    var used := if !ignoreLimit && |s| > env.MaxChars() then s[..env.MaxChars()] else s;
    SplitAtMarker(used);
    var fields := Fields(Head(used));
    FieldsAreTokens(env, used);
    if Head(used) != "" {
      var tokens := fields[1..];
      HeadTokens(env, fields, if !ignoreLimit && |tokens| > env.MaxHosts() then tokens[..env.MaxHosts()] else tokens);
    }
  }

  /** A mapping as it stands in the file: address, tab, host, and the own mark as a comment. */
  lemma MappingShown(env: Env, ip: Ip, h: Host)
    ensures Line(Some(ip), [h], []).WithOwnMarking().Show(env) ==
      env.showIp(ip) + "\t" + env.showHost(h) + " #ageLANServer"
  {
    var l := Line(Some(ip), [h], []);
    assert l.WithOwnMarking() == Line(Some(ip), [h], ["ageLANServer"]);
    assert ShowHosts(env, [h]) == [env.showHost(h)];
    assert Join(["ageLANServer"], [COMMENT_MARKER]) == "ageLANServer";
    assert l.Body(env) == env.showIp(ip) + "\t" + env.showHost(h);
    assert l.Body(env) != "";
    assert l.Body(env) + " " + [COMMENT_MARKER] + "ageLANServer" == l.Body(env) + " #ageLANServer";
  }

  // ---------- what the limits leave of a line ----------

  /** The host names of tokens are those of their parts, in order; a name that does not parse is skipped. */
  lemma {:induction false} ParseHostsAppend(env: Env, a: seq<string>, b: seq<string>)
    ensures ParseHosts(env, a + b) == ParseHosts(env, a) + ParseHosts(env, b)
  {
    if b == [] {
      assert a + b == a;
    } else {
      var n := |b| - 1;
      ParseHostsAppend(env, a, b[..n]);
      assert (a + b)[..|a + b| - 1] == a + b[..n];
    }
  }

  lemma ParseHostsOne(env: Env, token: string)
    ensures ParseHosts(env, [token]) ==
      match env.parseHost(token)
      case Some(h) => [h]
      case None => []
  {
    assert [token][..0] == [];
  }

  /** The characters the line limit leaves: 255 on Unix; on Windows all that a string can hold, less two. */
  function UsedText(env: Env, s: string): string {
    if env.platform.Unix? then (if |s| > 255 then s[..255] else s)
    else if |s| > 0x7fff_ffff_ffff_fffd then s[..0x7fff_ffff_ffff_fffd]
    else s
  }

  /**
   * A line read within its limits: what is left of it is an address line when it begins with
   * an address and another token. On Windows a line keeps its first nine host tokens, on Unix
   * all of them; nothing else makes a line go over its limits.
   */
  lemma LimitsExactly(env: Env, s: string)
    ensures var p := Parse(env, s, false); var used := UsedText(env, s);
      var tokens := Fields(Head(used));
      var address := |tokens| >= 2 && env.parseIp(tokens[0]).Some?;
      var tooMany := address && env.platform.Windows? && |tokens| > 10;
      && (p.overLimit <==> |s| > |used| || tooMany)
      && p.line.comments == Comments(used)
      && p.line.ip == (if address then env.parseIp(tokens[0]) else None)
      && p.line.hosts == (if !address then [] else ParseHosts(env, if tooMany then tokens[1..10] else tokens[1..]))
      && (p.ok <==> Head(used) == "" || p.line.hosts != [])
  {
    hide ParseHosts, Comments, Fields, IndexOf;
    var used := UsedText(env, s);
    HeadFits(used);
    FieldsFit(Head(used));
    var tokens := Fields(Head(used));
    assert |tokens| >= 10 ==> tokens[1..][..9] == tokens[1..10];
    EmptyHasNoFields();
  }

  lemma EmptyHasNoFields()
    ensures Fields("") == []
  {
  }

  lemma HeadFits(s: string)
    ensures |Head(s)| <= |s|
  {
  }

  /** Read without limits, an address line keeps all its host tokens. */
  lemma NoLimits(env: Env, s: string)
    ensures var p := Parse(env, s, true); var tokens := Fields(Head(s));
      var address := |tokens| >= 2 && env.parseIp(tokens[0]).Some?;
      && !p.overLimit && p.line.comments == Comments(s)
      && p.line.ip == (if address then env.parseIp(tokens[0]) else None)
      && p.line.hosts == (if address then ParseHosts(env, tokens[1..]) else [])
      && (p.ok <==> Head(s) == "" || p.line.hosts != [])
  {
    hide ParseHosts, Comments, Fields, IndexOf;
    EmptyHasNoFields();
  }

  lemma {:induction false} AllParse(env: Env, tokens: seq<string>)
    requires forall i :: 0 <= i < |tokens| ==> env.parseHost(tokens[i]).Some?
    ensures var hosts := ParseHosts(env, tokens);
      |hosts| == |tokens| && forall i :: 0 <= i < |tokens| ==> Some(hosts[i]) == env.parseHost(tokens[i])
  {
    if tokens != [] {
      AllParse(env, tokens[..|tokens| - 1]);
    }
  }

  /** On Windows an address line whose tokens all parse is over its limits with a tenth host, and keeps the first nine. */
  lemma FirstNine(env: Env, s: string)
    requires env.platform.Windows? && |s| <= 0x7fff_ffff_ffff_fffd
    requires var tokens := Fields(Head(s));
      |tokens| >= 2 && env.parseIp(tokens[0]).Some? && forall i :: 1 <= i < |tokens| ==> env.parseHost(tokens[i]).Some?
    ensures var hosts := Parse(env, s, true).line.hosts; var p := Parse(env, s, false);
      && |hosts| == |Fields(Head(s))| - 1
      && (p.overLimit <==> |hosts| > 9)
      && p.line.hosts == if |hosts| > 9 then hosts[..9] else hosts
  {
    LimitsExactly(env, s);
    NoLimits(env, s);
    hide Parse, ParseHosts, Fields, Head;
    var tokens := Fields(Head(s));
    AllParse(env, tokens[1..]);
    if |tokens| > 10 {
      ParseHostsAppend(env, tokens[1..10], tokens[10..]);
      assert tokens[1..10] + tokens[10..] == tokens[1..];
      AllParse(env, tokens[1..10]);
    }
  }

  // ---------- commenting out and back ----------

  /** Text behind a leading marker reads as one comment-only line holding all its parts. */
  lemma ParseCommentedText(env: Env, text: string)
    ensures Parse(env, [COMMENT_MARKER] + text, true)
      == Parsed(true, false, Line(None, [], Split(text, COMMENT_MARKER)))
  {
    var s := [COMMENT_MARKER] + text;
    assert s[1..] == text;
  }

  lemma {:induction false} SplitFacts(s: string, c: char)
    ensures Join(Split(s, c), [c]) == s
    ensures forall i :: 0 <= i < |Split(s, c)| ==> c !in Split(s, c)[i]
  {
    JoinSplit(s, c);
    SplitPartsClean(s, c);
  }

  /** Comment a line out, mark it, print it, parse it, remove the mark and uncomment it. */
  function CommentAndBack(env: Env, l: Line): Option<string> {
    match l.Commented(env)
    case None => None
    case Some(commented) =>
      var p := Parse(env, commented.WithOwnMarking().Show(env), true);
      if p.ok then p.line.WithoutOwnMarking().Uncommented(env) else None
  }

  /**
   * Commenting out is undone exactly on lines with an address; a comment-only line
   * loses its leading marker, and an empty one makes Uncommented panic.
   */
  lemma CommentAndBackIdentity(env: Env, l: Line)
    requires l.WellFormed(env) && !l.Own()
    ensures CommentAndBack(env, l) == Some(l.Show(env)) <==> !l.OnlyComments()
    ensures l.OnlyComments() ==>
      CommentAndBack(env, l) == if l.comments == [] then None else Some(l.Show(env)[1..])
  {
    hide Parse, Split, Join, Line.Show;
    if l.OnlyComments() {
      MarkedComment(env, l);
      CommentShown(env, l);
    } else {
      CommentOutAddress(env, l);
      SplitFacts(l.Show(env), COMMENT_MARKER);
      MarkedComment(env, l.Commented(env).value);
    }
  }

  lemma CommentShown(env: Env, l: Line)
    requires l.OnlyComments() && l.ip.None?
    ensures l.comments == [] ==> l.Show(env) == ""
    ensures l.comments != [] ==> l.Show(env) != "" && l.Show(env)[1..] == Join(l.comments, [COMMENT_MARKER])
  {
    assert l.Body(env) == "";
    hide Join;
  }

  /** The comment an address line turns into: all its text, cut at the markers. */
  lemma CommentOutAddress(env: Env, l: Line)
    requires l.WellFormed(env) && !l.OnlyComments()
    ensures l.Commented(env) == Some(Line(None, [], Split(l.Show(env), COMMENT_MARKER)))
    ensures l.Commented(env).value.WellFormed(env)
    ensures l.Commented(env).value.Own() == l.Own()
  {
    hide Parse, Split, Line.Show;
    ParseCommentedText(env, l.Show(env));
    SplitFacts(l.Show(env), COMMENT_MARKER);
    ShowNotOwn(env, l);
  }

  /** Marking a comment-only line, printing it and reading it back. */
  lemma MarkedComment(env: Env, c: Line)
    requires c.WellFormed(env) && c.OnlyComments() && !c.Own()
    ensures Parse(env, c.WithOwnMarking().Show(env), true) == Parsed(true, false, c.WithOwnMarking())
    ensures c.WithOwnMarking().WithoutOwnMarking() == c
  {
    ParseShow(env, c.WithOwnMarking());
    assert c.WithOwnMarking().WithoutOwnMarking().comments == c.comments;
  }

  lemma SplitBody(body: string, comments: seq<string>)
    requires COMMENT_MARKER !in body && comments != []
    requires forall i :: 0 <= i < |comments| ==> COMMENT_MARKER !in comments[i]
    ensures Split(body + [COMMENT_MARKER] + Join(comments, [COMMENT_MARKER]), COMMENT_MARKER) == [body] + comments
  {
    SplitAppend(body, COMMENT_MARKER, Join(comments, [COMMENT_MARKER]));
    SplitJoin(comments, COMMENT_MARKER);
    SplitWhole(body, COMMENT_MARKER);
  }

  /** The last part of a printed line is the own mark exactly when the line is own-marked. */
  lemma ShowNotOwn(env: Env, l: Line)
    requires l.WellFormed(env) && !l.OnlyComments()
    ensures var parts := Split(l.Show(env), COMMENT_MARKER);
      parts[|parts| - 1] == MARKING <==> l.Own()
  {
    BodyFields(env, l);
    var body := l.Body(env);
    if l.comments == [] {
      BodyNotMarking(env, l);
      SplitWhole(body, COMMENT_MARKER);
    } else {
      SplitBody(body + " ", l.comments);
      assert l.Show(env) == body + " " + [COMMENT_MARKER] + Join(l.comments, [COMMENT_MARKER]);
    }
  }

  lemma BodyNotMarking(env: Env, l: Line)
    requires l.WellFormed(env) && l.ip.Some?
    ensures l.Body(env) != MARKING
  {
    var k := |env.showIp(l.ip.value)|;
    assert l.Body(env)[k] == '\t';
    MarkingIsToken(env);
  }

  lemma MarkingIsToken(env: Env)
    ensures env.Token(MARKING)
  {
  }

  lemma MarkingParts(env: Env)
    ensures Split(MARKING, COMMENT_MARKER) == [MARKING]
  {
    MarkingIsToken(env);
    hide Split, IndexOf;
    SplitWhole(MARKING, COMMENT_MARKER);
  }
}
