// Which address a host has once its mappings are added: what a reader that takes the first
// mention finds in the file written (common/hosts/hosts.go).
module HostsResolve {
  import opened Wrappers
  import opened Text
  import opened HostLine
  import opened HostsFile
  import opened HostsUndo
  import opened HostsText
  import opened HostsEffect

  /** The addresses a parsed line gives a host, one for each mention. */
  function LineIps(l: Line, h: Host): seq<Ip> {
    if l.ip.Some? then seq(Count(l.hosts, h), i => l.ip.value) else []
  }

  /** The addresses parsed lines give a host, in order. */
  function AllIps(lines: seq<Line>, h: Host): seq<Ip> {
    if lines == [] then [] else AllIps(lines[..|lines| - 1], h) + LineIps(lines[|lines| - 1], h)
  }

  /** The addresses a line of text, read within its limits, gives a host. */
  function TextIps(env: Env, line: string, h: Host): seq<Ip> {
    var p := Parse(env, line, false);
    if p.ok then LineIps(p.line, h) else []
  }

  /** The addresses a file gives a host within its limits, one for each mention, in order. */
  function FileIps(env: Env, lines: seq<string>, h: Host): seq<Ip> {
    if lines == [] then [] else FileIps(env, lines[..|lines| - 1], h) + TextIps(env, lines[|lines| - 1], h)
  }

  /** The addresses without the first mention of one. */
  function WithoutFirst(ips: seq<Ip>, ip: Ip): seq<Ip> {
    if ips == [] then []
    else if ips[0] == ip then ips[1..]
    else [ips[0]] + WithoutFirst(ips[1..], ip)
  }

  /** What the file written gives a wanted host: its mapping last, unless that was there; then one mention of it less. */
  function WrittenIps(env: Env, ips: seq<Ip>, wanted: Ip, h: Host): seq<Ip> {
    if wanted !in ips then (if env.CommentHost(h) then [] else ips) + [wanted]
    else if env.CommentHost(h) then []
    else WithoutFirst(ips, wanted)
  }

  function First(ips: seq<Ip>): Option<Ip> {
    if ips == [] then None else Some(ips[0])
  }

  function OrElse(a: Option<Ip>, b: Option<Ip>): Option<Ip> {
    if a.Some? then a else b
  }

  // ---------- the addresses of the rewritten lines ----------

  lemma {:induction false} AllIpsAppend(a: seq<Line>, b: seq<Line>, h: Host)
    ensures AllIps(a + b, h) == AllIps(a, h) + AllIps(b, h)
  {
    hide LineIps;
    if b == [] {
      assert a + b == a;
    } else {
      var n := |b| - 1;
      AllIpsAppend(a, b[..n], h);
      assert (a + b)[..|a + b| - 1] == a + b[..n];
      AssocIps(AllIps(a, h), AllIps(b[..n], h), LineIps(b[n], h));
    }
  }

  lemma AssocIps(a: seq<Ip>, b: seq<Ip>, c: seq<Ip>)
    ensures (a + b) + c == a + (b + c)
  {
  }

  /** Lines that give no other address give this one as often as they mention it. */
  lemma {:induction false} SameIps(lines: seq<Line>, ip: Ip, h: Host)
    requires forall i :: 0 <= i < |lines| ==> lines[i].ip == None || lines[i].ip == Some(ip)
    ensures AllIps(lines, h) == seq(Active(lines, ip, h), i => ip)
  {
    if lines != [] {
      SameIps(lines[..|lines| - 1], ip, h);
    }
  }

  /** The lines a line is rewritten to give no address but the line's own. */
  lemma RewrittenIp(env: Env, line: string, m: map<Host, Ip>)
    requires env.Valid()
    ensures var p := Parse(env, line, false);
      forall i :: 0 <= i < |RewriteLine(env, line, m).lines| ==>
        var ip := RewriteLine(env, line, m).lines[i].ip; ip == None || (p.ok && ip == p.line.ip)
  {
    hide Parse, Split, KeepHosts, TakeMappings, Line.Show, Line.WellFormed, Env.Valid, RewriteLine;
    var p := Parse(env, line, false);
    if p.ok && p.line.ip.Some? {
      ParseWellFormed(env, line, false);
      AddressLines(env, line, m);
      MarkOnly(KeptLine(env, line, m));
    } else {
      PlainRewritten(env, line, m);
    }
  }

  /** A line gives what it gave, less one mention of a mapping it takes, and nothing for the machine's own name. */
  lemma LineKeeps(env: Env, line: string, m: map<Host, Ip>, w: Ip, h: Host)
    requires env.Valid()
    ensures var taken := h in m && m[h] == w;
      var ips := TextIps(env, line, h);
      (h in m ==> m[h] == w) ==>
        AllIps(RewriteLine(env, line, m).lines, h) ==
          if env.CommentHost(h) then [] else if taken then WithoutFirst(ips, w) else ips
  {
    hide Parse, RewriteLine, Active, AllIps, Env.Valid, WithoutFirst, MapsTo;
    var p := Parse(env, line, false);
    RewrittenIp(env, line, m);
    var ip := if p.ok && p.line.ip.Some? then p.line.ip.value else w;
    SameIps(RewriteLine(env, line, m).lines, ip, h);
    LineActive(env, line, m, ip, h);
    LineHeld(env, line, ip, h);
    var n := LineMentions(env, line, ip, h);
    assert TextIps(env, line, h) == seq(n, i => ip);
    LessOne(n, ip, w);
  }

  lemma {:induction false} LessOne(n: nat, ip: Ip, w: Ip)
    ensures WithoutFirst(seq(n, i => ip), w) == if ip == w && n > 0 then seq(n - 1, i => ip) else seq(n, i => ip)
  {
    if n > 0 {
      LessOne(n - 1, ip, w);
      assert seq(n, i => ip)[1..] == seq(n - 1, i => ip);
      assert [ip] + seq(n - 1, i => ip) == seq(n, i => ip);
    }
  }

  lemma HeadTail(a: seq<Ip>, b: seq<Ip>)
    requires a != []
    ensures (a + b)[0] == a[0] && (a + b)[1..] == a[1..] + b && a + b != []
    ensures forall w :: w in a <==> w == a[0] || w in a[1..]
  {
    assert a == [a[0]] + a[1..];
  }

  lemma {:induction false} WithoutFirstAppend(a: seq<Ip>, b: seq<Ip>, w: Ip)
    ensures WithoutFirst(a + b, w) == if w in a then WithoutFirst(a, w) + b else a + WithoutFirst(b, w)
  {
    if a == [] {
      assert a + b == b;
      assert a + WithoutFirst(b, w) == WithoutFirst(b, w);
    } else {
      WithoutFirstAppend(a[1..], b, w);
      HeadTail(a, b);
      assert WithoutFirst(a + b, w) == if a[0] == w then a[1..] + b else [a[0]] + WithoutFirst(a[1..] + b, w);
      AssocIps([a[0]], WithoutFirst(a[1..], w), b);
      AssocIps([a[0]], a[1..], WithoutFirst(b, w));
      assert [a[0]] + a[1..] == a;
    }
  }

  lemma LineMentionsIp(env: Env, line: string, ip: Ip, h: Host)
    ensures LineMentions(env, line, ip, h) > 0 <==> ip in TextIps(env, line, h)
  {
    hide Parse;
    var p := Parse(env, line, false);
    if p.ok && p.line.ip == Some(ip) && Count(p.line.hosts, h) > 0 {
      assert LineIps(p.line, h)[0] == ip;
    }
  }

  lemma {:induction false} MentionedIp(env: Env, lines: seq<string>, ip: Ip, h: Host)
    ensures Mentions(env, lines, ip, h) > 0 <==> ip in FileIps(env, lines, h)
  {
    hide LineMentions, TextIps;
    if lines != [] {
      MentionedIp(env, lines[..|lines| - 1], ip, h);
      LineMentionsIp(env, lines[|lines| - 1], ip, h);
    }
  }

  lemma {:induction false} WithoutNone(ips: seq<Ip>, w: Ip)
    requires w !in ips
    ensures WithoutFirst(ips, w) == ips
  {
    if ips != [] {
      WithoutNone(ips[1..], w);
    }
  }

  /** Without a mention in the first part, the second part loses one. */
  lemma WithoutFirstStep(a: seq<Ip>, b: seq<Ip>, w: Ip)
    ensures WithoutFirst(a + b, w) == WithoutFirst(a, w) + if w in a then b else WithoutFirst(b, w)
  {
    WithoutFirstAppend(a, b, w);
    if w !in a {
      WithoutNone(a, w);
    }
  }

  /** The rewritten lines give a wanted host what the file gave, less one mention of its mapping. */
  lemma {:induction false} FileKeeps(env: Env, lines: seq<string>, m: map<Host, Ip>, h: Host)
    requires env.Valid() && h in m
    ensures AllIps(RewriteLines(env, lines, m).lines, h) ==
      if env.CommentHost(h) then [] else WithoutFirst(FileIps(env, lines, h), m[h])
  {
    if lines == [] {
    } else {
      hide *;
      var n := |lines| - 1;
      var before := RewriteLines(env, lines[..n], m);
      FileKeeps(env, lines[..n], m, h);
      FileLast(env, lines, m, m[h], h);
      FileIpsLast(env, lines, h);
      var added := RewriteLine(env, lines[n], before.mappings).lines;
      AllIpsAppend(before.lines, added, h);
      NextLineKeeps(env, lines[..n], lines[n], m, h);
      WithoutFirstStep(FileIps(env, lines[..n], h), TextIps(env, lines[n], h), m[h]);
    }
  }

  lemma FileIpsLast(env: Env, lines: seq<string>, h: Host)
    requires lines != []
    ensures FileIps(env, lines, h) == FileIps(env, lines[..|lines| - 1], h) + TextIps(env, lines[|lines| - 1], h)
  {
  }

  /** The line behind others takes the mapping only if those do not give it. */
  lemma NextLineKeeps(env: Env, lines: seq<string>, line: string, m: map<Host, Ip>, h: Host)
    requires env.Valid() && h in m
    ensures AllIps(RewriteLine(env, line, RewriteLines(env, lines, m).mappings).lines, h) ==
      if env.CommentHost(h) then []
      else if m[h] in FileIps(env, lines, h) then TextIps(env, line, h)
      else WithoutFirst(TextIps(env, line, h), m[h])
  {
    hide *;
    StillMissing(env, lines, m, h);
    RewriteLinesShrinks(env, lines, m);
    MentionedIp(env, lines, m[h], h);
    LineKeeps(env, line, RewriteLines(env, lines, m).mappings, m[h], h);
  }

  // ---------- the address a reader finds ----------

  lemma {:induction false} FirstMentionAppend(env: Env, a: seq<string>, b: seq<string>, h: Host)
    ensures FirstMention(env, a + b, h) == OrElse(FirstMention(env, a, h), FirstMention(env, b, h))
  {
    hide View;
    if b == [] {
      assert a + b == a;
    } else {
      FirstMentionAppend(env, a, b[..|b| - 1], h);
      assert (a + b)[..|a + b| - 1] == a + b[..|b| - 1];
    }
  }

  /** A text with nothing in front of its comments maps nothing. */
  lemma CommentMapsNothing(env: Env, text: string)
    requires text == "" || text[0] == COMMENT_MARKER
    ensures View(env, text).Plain?
  {
    assert Head(text) == "";
    hide Fields, ParseHosts;
  }

  /** A printed line, read back from the file, maps what it mapped. */
  lemma ShownView(env: Env, l: Line, eol: string)
    requires l.WellFormed(env)
    ensures var v := View(env, Reread(l.Show(env), eol));
      if l.ip.Some? then v == Mapping(l.ip.value, l.hosts) else v.Plain?
  {
    hide Line.WellFormed, Parse;
    if l.ip.Some? {
      hide Line.Show, Reread;
      ParseShow(env, l);
      ViewDropCr(env, l.Show(env), eol);
    } else {
      hide View;
      CommentMapsNothing(env, Reread(l.Show(env), eol));
    }
  }

  /** What printed lines give a host, when they are read back from the file. */
  lemma {:induction false} ShownFirst(env: Env, lines: seq<Line>, eol: string, h: Host)
    requires forall i :: 0 <= i < |lines| ==> lines[i].WellFormed(env)
    ensures FirstMention(env, RereadAll(ShowLines(env, lines), eol), h) == First(AllIps(lines, h))
  {
    hide Line.WellFormed, Line.Show, View, Reread;
    if lines != [] {
      var n := |lines| - 1;
      ShownFirst(env, lines[..n], eol, h);
      ShownView(env, lines[n], eol);
      assert RereadAll(ShowLines(env, lines), eol)[..n] == RereadAll(ShowLines(env, lines[..n]), eol);
    }
  }

  lemma OneHostIps(ip: Ip, host: Host, comments: seq<string>, h: Host)
    ensures LineIps(Line(Some(ip), [host], comments), h) == if host == h then [ip] else []
  {
    assert [host][..0] == [];
    assert Count([host], h) == if host == h then 1 else 0;
  }

  lemma MappingLinesLast(order: seq<Host>, m: map<Host, Ip>)
    requires order != [] && forall i :: 0 <= i < |order| ==> order[i] in m
    ensures var n := |order| - 1;
      MappingLines(order, m) == MappingLines(order[..n], m) + [Line(Some(m[order[n]]), [order[n]], [MARKING])]
  {
  }

  lemma HostsLast(order: seq<Host>, h: Host)
    requires order != []
    ensures h in order <==> h in order[..|order| - 1] || h == order[|order| - 1]
  {
    assert order == order[..|order| - 1] + [order[|order| - 1]];
  }

  /** The mappings added give each host its address once. */
  lemma {:induction false} MappingIps(order: seq<Host>, m: map<Host, Ip>, h: Host)
    requires forall i :: 0 <= i < |order| ==> order[i] in m
    requires forall i, j :: 0 <= i < j < |order| ==> order[i] != order[j]
    ensures AllIps(MappingLines(order, m), h) == if h in order then [m[h]] else []
  {
    if order == [] {
    } else {
      hide *;
      var n := |order| - 1;
      var last := Line(Some(m[order[n]]), [order[n]], [MARKING]);
      MappingIps(order[..n], m, h);
      MappingLinesLast(order, m);
      AllIpsAppend(MappingLines(order[..n], m), [last], h);
      AllIpsOne(last, h);
      OneHostIps(m[order[n]], order[n], [MARKING], h);
      HostsLast(order, h);
    }
  }

  lemma AllIpsOne(l: Line, h: Host)
    ensures AllIps([l], h) == LineIps(l, h)
  {
    assert [l][..0] == [];
  }

  lemma MappingLinesWellFormed(env: Env, order: seq<Host>, m: map<Host, Ip>)
    requires GoodMappings(env, m) && Enumerates(order, m.Keys)
    ensures var lines := MappingLines(order, m); forall i :: 0 <= i < |lines| ==> lines[i].WellFormed(env)
  {
    MarkingIsToken(env);
  }

  /** The addresses the file written gives a wanted host, the one a reader finds first among them. */
  lemma WrittenFirst(env: Env, lines: seq<string>, wanted: map<Host, Ip>, order: seq<Host>, eol: string, h: Host)
    requires env.Valid() && GoodMappings(env, wanted) && h in wanted
    requires Enumerates(order, RewriteLines(env, lines, wanted).mappings.Keys)
    ensures FirstMention(env, RereadAll(WrittenLines(env, RewriteLines(env, lines, wanted), order), eol), h) ==
      First(WrittenIps(env, FileIps(env, lines, h), wanted[h], h))
  {
    hide Env.Valid, RewriteLines, FirstMention, AllIps, FileIps, Line.WellFormed, MappingLines, RereadAll, ShowLines, Reread,
      WithoutFirst, Mentions;
    var rw := RewriteLines(env, lines, wanted);
    var body, added := ShowLines(env, rw.lines), ShowLines(env, MappingLines(order, rw.mappings));
    RereadAppend(body + [""], added, eol);
    RereadAppend(body, [""], eol);
    BlankReread(eol);
    FirstMentionAppend(env, RereadAll(body + [""], eol), RereadAll(added, eol), h);
    FirstMentionAppend(env, RereadAll(body, eol), [""], h);
    BlankFirst(env, h);
    RewrittenWellFormed(env, lines, wanted);
    ShownFirst(env, rw.lines, eol, h);
    RewriteLinesShrinks(env, lines, wanted);
    MappingLinesWellFormed(env, order, rw.mappings);
    ShownFirst(env, MappingLines(order, rw.mappings), eol, h);
    MappingIps(order, rw.mappings, h);
    StillMissing(env, lines, wanted, h);
    MentionedIp(env, lines, wanted[h], h);
    FileKeeps(env, lines, wanted, h);
    if wanted[h] !in FileIps(env, lines, h) {
      WithoutNone(FileIps(env, lines, h), wanted[h]);
    }
  }

  lemma BlankFirst(env: Env, h: Host)
    ensures FirstMention(env, [""], h) == None
  {
    CommentMapsNothing(env, "");
    assert [""][..0] == [];
    hide View;
  }

  /**
   * A host is given its wanted address when the file gave it none, or gave it that one in
   * its first two mentions; the machine's own name, when the file did not give it that one.
   */
  predicate Resolves(env: Env, ips: seq<Ip>, wanted: Ip, h: Host) {
    if env.CommentHost(h) then wanted !in ips
    else ips == [] || (|ips| >= 2 && ips[0] == wanted && ips[1] == wanted)
  }

  lemma FirstOfWritten(env: Env, ips: seq<Ip>, wanted: Ip, h: Host)
    ensures First(WrittenIps(env, ips, wanted, h)) == Some(wanted) <==> Resolves(env, ips, wanted, h)
    ensures WrittenIps(env, ips, wanted, h) == [] <==> wanted in ips && (env.CommentHost(h) || ips == [wanted])
  {
    if wanted in ips && ips[0] == wanted && |ips| == 1 {
      assert ips == [wanted];
    }
  }

  /**
   * In the lines AddHosts writes, the first mention of a wanted host has its address exactly
   * when the file gave the host no address, or this one in its first two mentions; for the
   * machine's own name, exactly when the file did not give it this address.
   */
  lemma WantedResolves(env: Env, lines: seq<string>, wanted: map<Host, Ip>, order: seq<Host>, h: Host)
    requires env.Valid() && GoodMappings(env, wanted) && h in wanted
    requires Enumerates(order, RewriteLines(env, lines, wanted).mappings.Keys)
    ensures FirstMention(env, WrittenLines(env, RewriteLines(env, lines, wanted), order), h) == Some(wanted[h]) <==>
      var ips := FileIps(env, lines, h);
      if env.platform.Unix? && h == env.hostname then wanted[h] !in ips
      else ips == [] || (|ips| >= 2 && ips[0] == wanted[h] && ips[1] == wanted[h])
  {
    hide Env.Valid, RewriteLines, FirstMention, FileIps, WrittenIps;
    WrittenFirst(env, lines, wanted, order, "\r\n", h);
    RereadUnchanged(WrittenLines(env, RewriteLines(env, lines, wanted), order));
    FirstOfWritten(env, FileIps(env, lines, h), wanted[h], h);
  }

  lemma RereadUnchanged(lines: seq<string>)
    ensures RereadAll(lines, "\r\n") == lines
  {
  }

  /**
   * In the system's file: the first of the addresses written, or else what stays of the old
   * text gives. So a wanted host has its address exactly when the lines written resolve it, or
   * give it none, the file having mapped it as wanted just once, and the old text behind them does.
   */
  lemma FileResolves(env: Env, text: string, wanted: map<Host, Ip>, order: seq<Host>, eol: string, h: Host)
    requires env.Valid() && GoodMappings(env, wanted) && IsEol(eol) && h in wanted
    requires Enumerates(order, RewriteLines(env, ScanLines(text), wanted).mappings.Keys)
    ensures var ips := FileIps(env, ScanLines(text), h);
      var written := FileText(env, RewriteLines(env, ScanLines(text), wanted), order, eol);
      var stays := FirstMention(env, ScanLines(Tail(text, written)), h);
      var found := FirstMention(env, ScanLines(FileAfter(env, text, wanted, order, eol)), h);
      && found == OrElse(First(WrittenIps(env, ips, wanted[h], h)), stays)
      && (found == Some(wanted[h]) <==>
          Resolves(env, ips, wanted[h], h)
          || (stays == Some(wanted[h]) && wanted[h] in ips && (env.CommentHost(h) || ips == [wanted[h]])))
  {
    hide Env.Valid, RewriteLines, FirstMention, FileIps, WrittenIps, ScanLines, Tail, FileText, WrittenLines, RereadAll,
      Overwrite, Resolves, EndsLine;
    var written := FileText(env, RewriteLines(env, ScanLines(text), wanted), order, eol);
    WrittenScanned(env, text, wanted, order, eol);
    OverwriteTail(text, written);
    ScanAppend(written, Tail(text, written));
    FirstMentionAppend(env, ScanLines(written), ScanLines(Tail(text, written)), h);
    WrittenFirst(env, ScanLines(text), wanted, order, eol, h);
    FirstOfWritten(env, FileIps(env, ScanLines(text), h), wanted[h], h);
  }

  /** A line that gives a host another address keeps it in front of the mapping added. */
  lemma OtherAddressStays(env: Env, other: Ip, h: Host, wanted: map<Host, Ip>, order: seq<Host>)
    requires env.Valid() && GoodMappings(env, wanted) && h in wanted && other != wanted[h] && !env.CommentHost(h)
    requires env.GoodIp(other) && !Parse(env, Line(Some(other), [h], []).Show(env), false).overLimit
    requires Enumerates(order, RewriteLines(env, [Line(Some(other), [h], []).Show(env)], wanted).mappings.Keys)
    ensures var file := [Line(Some(other), [h], []).Show(env)];
      && Mentions(env, file, wanted[h], h) == 0
      && FirstMention(env, WrittenLines(env, RewriteLines(env, file, wanted), order), h) == Some(other)
  {
    hide Env.Valid, RewriteLines, FirstMention, WithoutFirst, Parse, Line.Show, Mentions, WrittenLines;
    var l := Line(Some(other), [h], []);
    var file := [l.Show(env)];
    ParseShow(env, l);
    LimitIrrelevant(env, file[0]);
    assert file[..0] == [] && [h][..0] == [];
    assert FileIps(env, file, h) == [] + LineIps(l, h);
    assert LineIps(l, h) == [other];
    WrittenFirst(env, file, wanted, order, "\r\n", h);
    RereadUnchanged(WrittenLines(env, RewriteLines(env, file, wanted), order));
    MentionedIp(env, file, wanted[h], h);
  }

  /** Lines within the limits give a reader the first of their addresses. */
  lemma {:induction false} UnwrittenFirst(env: Env, lines: seq<string>, h: Host)
    requires forall i :: 0 <= i < |lines| ==> !Parse(env, lines[i], false).overLimit
    ensures FirstMention(env, lines, h) == First(FileIps(env, lines, h))
  {
    hide Parse;
    if lines != [] {
      var n := |lines| - 1;
      UnwrittenFirst(env, lines[..n], h);
      LimitIrrelevant(env, lines[n]);
    }
  }

  /** A file left alone gives every wanted host its address somewhere, and a reader finds the first it gives. */
  lemma UnwrittenResolves(env: Env, lines: seq<string>, wanted: map<Host, Ip>, h: Host)
    requires RewriteLines(env, lines, wanted).mappings == map[] && h in wanted
    requires forall i :: 0 <= i < |lines| ==> !Parse(env, lines[i], false).overLimit
    ensures var ips := FileIps(env, lines, h);
      && wanted[h] in ips
      && (FirstMention(env, lines, h) == Some(wanted[h]) <==> ips[0] == wanted[h])
  {
    hide RewriteLines, FirstMention, FileIps, Mentions, Parse;
    UnwrittenHolds(env, lines, wanted);
    MentionedIp(env, lines, wanted[h], h);
    UnwrittenFirst(env, lines, h);
  }
}
