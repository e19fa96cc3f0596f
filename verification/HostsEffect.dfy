// What AddHosts changes: which mappings it adds, which hosts it leaves active, and how the
// hosts of a file are listed (common/hosts/hosts.go).
module HostsEffect {
  import opened Wrappers
  import opened Text
  import opened HostLine
  import opened HostsFile
  import opened HostsUndo

  /** The line, read within its limits, maps the host to the address. */
  predicate MapsTo(env: Env, line: string, ip: Ip, h: Host) {
    var p := Parse(env, line, false);
    p.ok && p.line.ip == Some(ip) && h in p.line.hosts
  }

  lemma {:induction false} TakenExactly(ip: Ip, hosts: seq<Host>, m: map<Host, Ip>)
    ensures TakeMappings(ip, hosts, m).mappings == map h | h in m && !(m[h] == ip && h in hosts) :: m[h]
  {
    if hosts != [] {
      var n := |hosts| - 1;
      TakenExactly(ip, hosts[..n], m);
      assert hosts == hosts[..n] + [hosts[n]];
    } else {
      assert m == map h | h in m && !(m[h] == ip && h in hosts) :: m[h];
    }
  }

  lemma LineTakes(env: Env, line: string, m: map<Host, Ip>)
    ensures RewriteLine(env, line, m).mappings == map h | h in m && !MapsTo(env, line, m[h], h) :: m[h]
  {
    hide Split, Fields, KeepHosts, TakeMappings;
    var p := Parse(env, line, false);
    CommentTextOk(env, line);
    if p.ok && p.line.ip.Some? {
      TakenExactly(p.line.ip.value, p.line.hosts, m);
    } else {
      assert m == map h | h in m && !MapsTo(env, line, m[h], h) :: m[h];
    }
  }

  /** Some line of the file maps the host to the address. */
  predicate Held(env: Env, lines: seq<string>, ip: Ip, h: Host) {
    exists i :: 0 <= i < |lines| && MapsTo(env, lines[i], ip, h)
  }

  lemma HeldByLast(env: Env, lines: seq<string>, ip: Ip, h: Host)
    requires lines != []
    ensures var n := |lines| - 1;
      Held(env, lines, ip, h) <==> Held(env, lines[..n], ip, h) || MapsTo(env, lines[n], ip, h)
  {
    hide MapsTo;
    var n := |lines| - 1;
    if i :| 0 <= i < |lines| && MapsTo(env, lines[i], ip, h) {
      assert i < n ==> lines[..n][i] == lines[i];
    }
    if j :| 0 <= j < n && MapsTo(env, lines[..n][j], ip, h) {
      assert MapsTo(env, lines[j], ip, h);
    }
  }

  /** The mappings added are exactly the wanted ones that no line of the file already holds. */
  lemma {:induction false} MissingExactly(env: Env, lines: seq<string>, m: map<Host, Ip>)
    ensures RewriteLines(env, lines, m).mappings == map h | h in m && !Held(env, lines, m[h], h) :: m[h]
  {
    hide RewriteLine, MapsTo;
    if lines == [] {
      assert m == map h | h in m && !Held(env, lines, m[h], h) :: m[h];
    } else {
      hide Held;
      var n := |lines| - 1;
      MissingExactly(env, lines[..n], m);
      LineTakes(env, lines[n], RewriteLines(env, lines[..n], m).mappings);
      forall h | h in m
        ensures Held(env, lines, m[h], h) <==> Held(env, lines[..n], m[h], h) || MapsTo(env, lines[n], m[h], h)
      {
        HeldByLast(env, lines, m[h], h);
      }
    }
  }

  /** How often a host stands in a list. */
  function Count(hosts: seq<Host>, h: Host): (n: nat)
    ensures n > 0 <==> h in hosts
  {
    if hosts == [] then 0
    else
      var last := |hosts| - 1;
      assert hosts == hosts[..last] + [hosts[last]];
      Count(hosts[..last], h) + if hosts[last] == h then 1 else 0
  }

  lemma {:induction false} KeepIgnoresLater(env: Env, hosts: seq<Host>, avoid: set<nat>, later: nat)
    requires |hosts| <= later
    ensures KeepHosts(env, hosts, avoid + {later}) == KeepHosts(env, hosts, avoid)
  {
    if hosts != [] {
      KeepIgnoresLater(env, hosts[..|hosts| - 1], avoid, later);
    }
  }

  /** The avoided positions of a list: those of the list without its last host, and maybe the last. */
  lemma AvoidStep(env: Env, ip: Ip, hosts: seq<Host>, m: map<Host, Ip>)
    requires hosts != []
    ensures var n := |hosts| - 1; var before := TakeMappings(ip, hosts[..n], m); var all := TakeMappings(ip, hosts, m).avoid;
      && (n in all <==> hosts[n] in before.mappings && before.mappings[hosts[n]] == ip)
      && KeepHosts(env, hosts[..n], all) == KeepHosts(env, hosts[..n], before.avoid)
  {
    hide KeepHosts;
    var n := |hosts| - 1;
    AvoidBefore(ip, hosts[..n], m);
    KeepIgnoresLater(env, hosts[..n], TakeMappings(ip, hosts[..n], m).avoid, n);
  }

  /**
   * The hosts a line keeps active: all of them but the machine's own name and, of each
   * wanted mapping the line holds, one mention.
   */
  lemma {:induction false} KeptExactly(env: Env, ip: Ip, hosts: seq<Host>, m: map<Host, Ip>, h: Host)
    ensures Count(KeepHosts(env, hosts, TakeMappings(ip, hosts, m).avoid), h) ==
      if env.CommentHost(h) then 0
      else Count(hosts, h) - (if h in hosts && h in m && m[h] == ip then 1 else 0)
  {
    hide *;
    if hosts == [] {
      KeptNone(env, ip, m, h);
    } else {
      var n := |hosts| - 1;
      var last := hosts[n];
      KeptExactly(env, ip, hosts[..n], m, h);
      StillTaken(ip, hosts[..n], m, last);
      AvoidStep(env, ip, hosts, m);
      KeepStep(env, hosts, TakeMappings(ip, hosts, m).avoid);
      var kept := KeepHosts(env, hosts[..n], TakeMappings(ip, hosts[..n], m).avoid);
      CountLast(kept, last, h);
      CountSplit(hosts, h);
    }
  }

  lemma KeptNone(env: Env, ip: Ip, m: map<Host, Ip>, h: Host)
    ensures KeepHosts(env, [], TakeMappings(ip, [], m).avoid) == [] && Count([], h) == 0
  {
  }

  /** Whether a host still has its mapping behind a list of hosts. */
  lemma StillTaken(ip: Ip, hosts: seq<Host>, m: map<Host, Ip>, h: Host)
    ensures var t := TakeMappings(ip, hosts, m).mappings;
      h in t && t[h] == ip <==> h in m && m[h] == ip && h !in hosts
  {
    TakenExactly(ip, hosts, m);
  }

  lemma KeepStep(env: Env, hosts: seq<Host>, avoid: set<nat>)
    requires hosts != []
    ensures var n := |hosts| - 1; var kept := KeepHosts(env, hosts[..n], avoid);
      KeepHosts(env, hosts, avoid) == if n in avoid || env.CommentHost(hosts[n]) then kept else kept + [hosts[n]]
  {
  }

  lemma CountLast(a: seq<Host>, x: Host, h: Host)
    ensures Count(a + [x], h) == Count(a, h) + if x == h then 1 else 0
  {
    assert (a + [x])[..|a|] == a;
  }

  lemma CountSplit(hosts: seq<Host>, h: Host)
    requires hosts != []
    ensures var n := |hosts| - 1;
      && Count(hosts, h) == Count(hosts[..n], h) + (if hosts[n] == h then 1 else 0)
      && (h in hosts <==> h in hosts[..n] || hosts[n] == h)
  {
    assert hosts == hosts[..|hosts| - 1] + [hosts[|hosts| - 1]];
  }

  lemma {:induction false} AvoidBefore(ip: Ip, hosts: seq<Host>, m: map<Host, Ip>)
    ensures forall i :: i in TakeMappings(ip, hosts, m).avoid ==> i < |hosts|
  {
    if hosts != [] {
      AvoidBefore(ip, hosts[..|hosts| - 1], m);
    }
  }

  // ---------- where a wanted mapping is after the rewrite ----------

  /** How often a line, read within its limits, maps the host to the address. */
  function LineMentions(env: Env, line: string, ip: Ip, h: Host): nat {
    var p := Parse(env, line, false);
    if p.ok && p.line.ip == Some(ip) then Count(p.line.hosts, h) else 0
  }

  function Mentions(env: Env, lines: seq<string>, ip: Ip, h: Host): nat {
    if lines == [] then 0
    else Mentions(env, lines[..|lines| - 1], ip, h) + LineMentions(env, lines[|lines| - 1], ip, h)
  }

  /** How often the parsed lines map the host to the address. */
  function Active(lines: seq<Line>, ip: Ip, h: Host): nat {
    if lines == [] then 0
    else
      var last := lines[|lines| - 1];
      Active(lines[..|lines| - 1], ip, h) + if last.ip == Some(ip) then Count(last.hosts, h) else 0
  }

  lemma {:induction false} ActiveAppend(a: seq<Line>, b: seq<Line>, ip: Ip, h: Host)
    ensures Active(a + b, ip, h) == Active(a, ip, h) + Active(b, ip, h)
  {
    if b == [] {
      assert a + b == a;
    } else {
      var n := |b| - 1;
      ActiveAppend(a, b[..n], ip, h);
      assert (a + b)[..|a + b| - 1] == a + b[..n];
    }
  }

  lemma ActiveOne(l: Line, ip: Ip, h: Host)
    ensures Active([], ip, h) == 0
    ensures Active([l], ip, h) == if l.ip == Some(ip) then Count(l.hosts, h) else 0
  {
    assert [l][..0] == [];
  }

  lemma {:induction false} ActiveSome(lines: seq<Line>, ip: Ip, h: Host)
    ensures Active(lines, ip, h) > 0 <==> exists i :: 0 <= i < |lines| && lines[i].ip == Some(ip) && h in lines[i].hosts
  {
    if lines != [] {
      var n := |lines| - 1;
      ActiveSome(lines[..n], ip, h);
      if i :| 0 <= i < n && lines[i].ip == Some(ip) && h in lines[i].hosts {
        assert lines[..n][i] == lines[i];
      }
    }
  }

  /** Commenting out leaves nothing active. */
  lemma CommentedMapsNothing(env: Env, l: Line)
    ensures l.Commented(env).Some? && l.Commented(env).value.ip == None
  {
    ParseCommentedText(env, l.Show(env));
    hide Split, Parse, Line.Show;
  }

  lemma ActiveAddressLine(env: Env, line: string, m: map<Host, Ip>, ip: Ip, h: Host)
    requires var p := Parse(env, line, false); p.ok && p.line.ip.Some?
    ensures Active(RewriteLine(env, line, m).lines, ip, h) ==
      var p := Parse(env, line, false);
      if p.line.ip == Some(ip)
      then Count(KeepHosts(env, p.line.hosts, TakeMappings(ip, p.line.hosts, m).avoid), h) else 0
  {
    hide Parse, KeepHosts, TakeMappings, Split, Line.Show, Active;
    var p := Parse(env, line, false);
    CommentTextOk(env, line);
    var kept := KeepHosts(env, p.line.hosts, TakeMappings(p.line.ip.value, p.line.hosts, m).avoid);
    var source := if p.overLimit then CommentText(env, line).value else p.line;
    var active := Line(p.line.ip, kept, []);
    var removed := |kept| < |p.line.hosts| || p.overLimit;
    CommentedMapsNothing(env, source);
    hide CommentText, Line.Commented;
    var commented := source.Commented(env).value.WithOwnMarking();
    var a := if removed then [commented] else [];
    var b := if kept == [] then [] else [if removed then active.WithOwnMarking() else active];
    assert RewriteLine(env, line, m).lines == a + b;
    ActiveAppend(a, b, ip, h);
    ActiveOne(commented, ip, h);
    ActiveOne(active, ip, h);
    ActiveOne(active.WithOwnMarking(), ip, h);
  }

  /** A line keeps every mention but, if the mapping is still wanted, one, and all of the machine's own name. */
  lemma LineActive(env: Env, line: string, m: map<Host, Ip>, ip: Ip, h: Host)
    ensures Active(RewriteLine(env, line, m).lines, ip, h) ==
      if env.CommentHost(h) then 0
      else LineMentions(env, line, ip, h) - (if MapsTo(env, line, ip, h) && h in m && m[h] == ip then 1 else 0)
  {
    hide KeepHosts, TakeMappings, Split, Fields, Line.Show, Active;
    var p := Parse(env, line, false);
    CommentTextOk(env, line);
    if p.ok && p.line.ip.Some? {
      hide Parse, RewriteLine;
      ActiveAddressLine(env, line, m, ip, h);
      KeptExactly(env, ip, p.line.hosts, m, h);
    } else {
      assert |RewriteLine(env, line, m).lines| == 1;
      var only := RewriteLine(env, line, m).lines[0];
      assert RewriteLine(env, line, m).lines == [only] && only.ip == None;
      ActiveOne(only, ip, h);
    }
  }

  lemma {:induction false} HeldMentions(env: Env, lines: seq<string>, ip: Ip, h: Host)
    ensures Held(env, lines, ip, h) <==> Mentions(env, lines, ip, h) > 0
  {
    if lines != [] {
      HeldMentions(env, lines[..|lines| - 1], ip, h);
      HeldByLast(env, lines, ip, h);
      hide Held, Parse;
    }
  }

  /** A wanted mapping is still missing behind lines that do not mention it. */
  lemma StillMissing(env: Env, lines: seq<string>, m: map<Host, Ip>, h: Host)
    requires h in m
    ensures var r := RewriteLines(env, lines, m).mappings;
      h in r && r[h] == m[h] <==> Mentions(env, lines, m[h], h) == 0
  {
    hide RewriteLines, Held, Mentions;
    MissingExactly(env, lines, m);
    HeldMentions(env, lines, m[h], h);
  }

  lemma FileLast(env: Env, lines: seq<string>, m: map<Host, Ip>, ip: Ip, h: Host)
    requires lines != []
    ensures var n := |lines| - 1; var before := RewriteLines(env, lines[..n], m);
      && RewriteLines(env, lines, m).lines == before.lines + RewriteLine(env, lines[n], before.mappings).lines
      && Mentions(env, lines, ip, h) == Mentions(env, lines[..n], ip, h) + LineMentions(env, lines[n], ip, h)
  {
    hide RewriteLine, LineMentions;
  }

  /** Of a wanted mapping the rewritten lines keep every mention of the file but one. */
  lemma {:induction false} FileActive(env: Env, lines: seq<string>, m: map<Host, Ip>, h: Host)
    requires h in m
    ensures Active(RewriteLines(env, lines, m).lines, m[h], h) ==
      var n := Mentions(env, lines, m[h], h);
      if env.CommentHost(h) || n == 0 then 0 else n - 1
  {
    if lines == [] {
    } else {
      hide *;
      var n := |lines| - 1;
      FileActive(env, lines[..n], m, h);
      StillMissing(env, lines[..n], m, h);
      var before := RewriteLines(env, lines[..n], m);
      LineActive(env, lines[n], before.mappings, m[h], h);
      LineHeld(env, lines[n], m[h], h);
      FileLast(env, lines, m, m[h], h);
      ActiveAppend(before.lines, RewriteLine(env, lines[n], before.mappings).lines, m[h], h);
    }
  }

  lemma LineHeld(env: Env, line: string, ip: Ip, h: Host)
    ensures MapsTo(env, line, ip, h) <==> LineMentions(env, line, ip, h) > 0
  {
    hide Parse;
  }

  /** Every line of the rewritten file can be printed and read back. */
  lemma {:induction false} RewrittenWellFormed(env: Env, lines: seq<string>, m: map<Host, Ip>)
    requires env.Valid()
    ensures forall i :: 0 <= i < |RewriteLines(env, lines, m).lines| ==> RewriteLines(env, lines, m).lines[i].WellFormed(env)
  {
    hide RewriteLine, Line.WellFormed, Env.Valid;
    if lines != [] {
      var n := |lines| - 1;
      RewrittenWellFormed(env, lines[..n], m);
      RewrittenLineWellFormed(env, lines[n], RewriteLines(env, lines[..n], m).mappings);
    }
  }

  lemma RewrittenLineWellFormed(env: Env, line: string, m: map<Host, Ip>)
    requires env.Valid()
    ensures forall i :: 0 <= i < |RewriteLine(env, line, m).lines| ==> RewriteLine(env, line, m).lines[i].WellFormed(env)
  {
    hide Parse, Split, KeepHosts, TakeMappings, Line.Show, Line.WellFormed, MarkedText;
    var p := Parse(env, line, false);
    if p.ok {
      ParseWellFormed(env, line, false);
    }
    if p.ok && p.line.ip.Some? {
      AddressLines(env, line, m);
      MarkedTextWellFormed(env, CommentedSource(env, line));
      KeptWellFormed(env, KeptLine(env, line, m), p.line);
      hide CommentedSource, RewriteLine;
      if KeptLine(env, line, m).hosts == [] {
        assert KeepHosts(env, p.line.hosts, TakeMappings(p.line.ip.value, p.line.hosts, m).avoid) == [];
        WellFormedHasHosts(env, p.line);
      }
    } else {
      PlainRewritten(env, line, m);
      MarkedTextWellFormed(env, line);
    }
  }

  lemma WellFormedHasHosts(env: Env, l: Line)
    requires l.WellFormed(env) && l.ip.Some?
    ensures l.hosts != []
  {
  }

  lemma KeptWellFormed(env: Env, l: Line, whole: Line)
    requires whole.WellFormed(env) && whole.ip.Some? && l.ip == whole.ip && l.comments == []
    requires forall i :: 0 <= i < |l.hosts| ==> l.hosts[i] in whole.hosts
    ensures l.hosts != [] ==> l.WellFormed(env) && l.WithOwnMarking().WellFormed(env)
  {
    MarkingIsToken(env);
    MarkOnly(l);
  }

  lemma MarkedTextWellFormed(env: Env, text: string)
    ensures MarkedText(text).WellFormed(env)
  {
    hide Split, Join;
    SplitFacts(text, COMMENT_MARKER);
    MarkingIsToken(env);
  }

  /** The text, read with no limit, maps the host to the address. */
  predicate MapsHost(env: Env, text: string, ip: Ip, h: Host) {
    var v := View(env, text);
    v.Mapping? && v.ip == ip && h in v.hosts
  }

  predicate AnyMapsHost(env: Env, lines: seq<string>, ip: Ip, h: Host) {
    exists i :: 0 <= i < |lines| && MapsHost(env, lines[i], ip, h)
  }

  lemma ShownMaps(env: Env, l: Line, ip: Ip, h: Host)
    requires l.WellFormed(env)
    ensures MapsHost(env, l.Show(env), ip, h) <==> l.ip == Some(ip) && h in l.hosts
  {
    ParseShow(env, l);
    hide Parse, Line.Show, Line.WellFormed;
  }

  lemma ShownAnyMaps(env: Env, lines: seq<Line>, ip: Ip, h: Host)
    requires forall i :: 0 <= i < |lines| ==> lines[i].WellFormed(env)
    ensures AnyMapsHost(env, ShowLines(env, lines), ip, h) <==> Active(lines, ip, h) > 0
  {
    hide Line.Show, Line.WellFormed, MapsHost, Active;
    ActiveSome(lines, ip, h);
    forall i | 0 <= i < |lines|
      ensures MapsHost(env, ShowLines(env, lines)[i], ip, h) <==> lines[i].ip == Some(ip) && h in lines[i].hosts
    {
      ShownMaps(env, lines[i], ip, h);
    }
  }

  lemma AddedMaps(env: Env, order: seq<Host>, m: map<Host, Ip>, ip: Ip, h: Host)
    requires GoodMappings(env, m) && Enumerates(order, m.Keys)
    ensures AnyMapsHost(env, ShowLines(env, MappingLines(order, m)), ip, h) <==> h in m && m[h] == ip
  {
    var lines := MappingLines(order, m);
    MarkingIsToken(env);
    forall i | 0 <= i < |lines|
      ensures lines[i].WellFormed(env) && lines[i].ip == Some(m[order[i]]) && lines[i].hosts == [order[i]]
    {
    }
    ShownAnyMaps(env, lines, ip, h);
    ActiveSome(lines, ip, h);
    hide Active, Line.WellFormed, AnyMapsHost, MappingLines, ShowLines;
    if h in m {
      var i :| 0 <= i < |order| && order[i] == h;
      assert m[h] == ip ==> lines[i].ip == Some(ip) && h in lines[i].hosts;
    }
  }

  lemma AnyMapsAppend(env: Env, a: seq<string>, b: seq<string>, ip: Ip, h: Host)
    ensures AnyMapsHost(env, a + b, ip, h) <==> AnyMapsHost(env, a, ip, h) || AnyMapsHost(env, b, ip, h)
  {
    hide MapsHost;
    if i :| 0 <= i < |a| && MapsHost(env, a[i], ip, h) {
      assert MapsHost(env, (a + b)[i], ip, h);
    }
    if i :| 0 <= i < |b| && MapsHost(env, b[i], ip, h) {
      assert MapsHost(env, (a + b)[|a| + i], ip, h);
    }
  }

  lemma BlankMapsNothing(env: Env, ip: Ip, h: Host)
    ensures !AnyMapsHost(env, [""], ip, h)
  {
    BlankLine(env);
    hide View;
  }

  /**
   * In the file AddHosts writes, a wanted host has its address exactly when the file did
   * not mention that mapping, within its limits, just once; for the machine's own name,
   * exactly when it did not mention it at all.
   */
  lemma WantedMapped(env: Env, lines: seq<string>, wanted: map<Host, Ip>, order: seq<Host>, h: Host)
    requires env.Valid() && GoodMappings(env, wanted) && h in wanted
    requires Enumerates(order, RewriteLines(env, lines, wanted).mappings.Keys)
    ensures AnyMapsHost(env, WrittenLines(env, RewriteLines(env, lines, wanted), order), wanted[h], h) <==>
      var n := Mentions(env, lines, wanted[h], h);
      if env.CommentHost(h) then n == 0 else n != 1
  {
    hide RewriteLines, Env.Valid, Active, Line.WellFormed, AnyMapsHost, MappingLines, ShowLines, Held, Mentions, MapsTo;
    var rw := RewriteLines(env, lines, wanted);
    var ip := wanted[h];
    RewriteLinesShrinks(env, lines, wanted);
    RewrittenWellFormed(env, lines, wanted);
    var body, added := ShowLines(env, rw.lines), ShowLines(env, MappingLines(order, rw.mappings));
    AnyMapsAppend(env, body + [""], added, ip, h);
    AnyMapsAppend(env, body, [""], ip, h);
    BlankMapsNothing(env, ip, h);
    ShownAnyMaps(env, rw.lines, ip, h);
    AddedMaps(env, order, rw.mappings, ip, h);
    FileActive(env, lines, wanted, h);
    MissingExactly(env, lines, wanted);
    HeldMentions(env, lines, ip, h);
  }

  /** A mapping the file mentions just once is taken from both the file and the additions. */
  lemma PresentMappingCommentedOut(env: Env, lines: seq<string>, wanted: map<Host, Ip>, order: seq<Host>, h: Host)
    requires env.Valid() && GoodMappings(env, wanted) && h in wanted
    requires Enumerates(order, RewriteLines(env, lines, wanted).mappings.Keys)
    requires Mentions(env, lines, wanted[h], h) == 1
    ensures !AnyMapsHost(env, WrittenLines(env, RewriteLines(env, lines, wanted), order), wanted[h], h)
    ensures h !in RewriteLines(env, lines, wanted).mappings
    ensures forall i :: 0 <= i < |RewriteLines(env, lines, wanted).lines| ==>
      var l := RewriteLines(env, lines, wanted).lines[i]; !(l.ip == Some(wanted[h]) && h in l.hosts)
  {
    hide RewriteLines, Env.Valid, Active, AnyMapsHost, WrittenLines, Held, Mentions, MapsTo;
    WantedMapped(env, lines, wanted, order, h);
    FileActive(env, lines, wanted, h);
    ActiveSome(RewriteLines(env, lines, wanted).lines, wanted[h], h);
    MissingExactly(env, lines, wanted);
    HeldMentions(env, lines, wanted[h], h);
  }

  /** When AddHosts leaves the file alone, every wanted mapping is in it. */
  lemma UnwrittenHolds(env: Env, lines: seq<string>, wanted: map<Host, Ip>)
    ensures RewriteLines(env, lines, wanted).mappings == map[] <==>
      forall h :: h in wanted ==> Mentions(env, lines, wanted[h], h) > 0
  {
    hide RewriteLines, Held, Mentions, MapsTo;
    MissingExactly(env, lines, wanted);
    forall h | h in wanted ensures Held(env, lines, wanted[h], h) <==> Mentions(env, lines, wanted[h], h) > 0 {
      HeldMentions(env, lines, wanted[h], h);
    }
    var missing := RewriteLines(env, lines, wanted).mappings;
    if h :| h in wanted && !Held(env, lines, wanted[h], h) {
      assert h in missing;
    }
  }

  // ---------- listing the hosts of a file ----------

  datatype Listing = Listing(lines: seq<Line>, seen: set<Host>)

  /** The hosts not seen before, each once. */
  function FreshHosts(hosts: seq<Host>, seen: set<Host>): (unseen: seq<Host>)
    ensures forall h :: h in unseen <==> h in hosts && h !in seen
  {
    if hosts == [] then []
    else
      var last := hosts[|hosts| - 1];
      var before := FreshHosts(hosts[..|hosts| - 1], seen);
      assert hosts == hosts[..|hosts| - 1] + [last];
      if last in seen || last in before then before else before + [last]
  }

  function ListLine(env: Env, line: string, l: Listing): Listing {
    var p := Parse(env, line, true);
    if !p.ok || p.line.OnlyComments() then l
    else
      var unseen := FreshHosts(p.line.hosts, l.seen);
      Listing(
        if unseen == [] then l.lines else l.lines + [Line(p.line.ip, unseen, []).WithOwnMarking()],
        l.seen + set h | h in unseen)
  }

  function ListLines(env: Env, lines: seq<string>): Listing {
    if lines == [] then Listing([], {})
    else ListLine(env, lines[|lines| - 1], ListLines(env, lines[..|lines| - 1]))
  }

  /** The host loop of GetAllLines. */
  method AddFreshHosts(hosts: seq<Host>, seen: set<Host>) returns (finalHosts: seq<Host>, addedHosts: set<Host>)
    ensures finalHosts == FreshHosts(hosts, seen) && addedHosts == seen + set h | h in finalHosts
  {
    finalHosts, addedHosts := [], seen;
    for i := 0 to |hosts|
      invariant finalHosts == FreshHosts(hosts[..i], seen)
      invariant addedHosts == seen + set h | h in finalHosts
    {
      assert hosts[..i + 1][..i] == hosts[..i];
      if hosts[i] !in addedHosts {
        finalHosts := finalHosts + [hosts[i]];
        addedHosts := addedHosts + {hosts[i]};
      }
    }
    assert hosts[..|hosts|] == hosts;
  }

  method GetAllLines(env: Env, text: seq<string>) returns (lines: seq<Line>)
    ensures lines == ListLines(env, text).lines
  {
    lines := [];
    var addedHosts: set<Host> := {};
    for i := 0 to |text|
      invariant Listing(lines, addedHosts) == ListLines(env, text[..i])
    {
      assert text[..i + 1][..i] == text[..i];
      var ok, _, parsedLine := ParseLine(env, text[i], true);
      if !ok || parsedLine.OnlyComments() {
        continue;
      }
      var finalHosts;
      finalHosts, addedHosts := AddFreshHosts(parsedLine.hosts, addedHosts);
      if finalHosts != [] {
        lines := lines + [Line(parsedLine.ip, finalHosts, []).WithOwnMarking()];
      }
    }
    assert text[..|text|] == text;
  }

  /** The address a reader that takes the first mention finds for a host. */
  function FirstMention(env: Env, text: seq<string>, h: Host): Option<Ip> {
    if text == [] then None
    else
      var before := FirstMention(env, text[..|text| - 1], h);
      var entry := View(env, text[|text| - 1]);
      if before.Some? then before
      else if entry.Mapping? && h in entry.hosts then Some(entry.ip) else None
  }

  predicate Lists(lines: seq<Line>, h: Host, i: nat)
    requires i < |lines|
  {
    h in lines[i].hosts
  }

  /** In the listing a host stands on one line at most, with the address of its first mention in the file. */
  lemma {:induction false} ListingFirstMention(env: Env, text: seq<string>, h: Host)
    ensures var l := ListLines(env, text);
      && (h in l.seen <==> FirstMention(env, text, h).Some?)
      && (h in l.seen <==> exists i :: 0 <= i < |l.lines| && Lists(l.lines, h, i))
      && (forall i :: 0 <= i < |l.lines| && Lists(l.lines, h, i) ==> l.lines[i].ip == FirstMention(env, text, h))
      && (forall i, j :: 0 <= i < j < |l.lines| && Lists(l.lines, h, i) ==> !Lists(l.lines, h, j))
  {
    if text != [] {
      ListingFirstMention(env, text[..|text| - 1], h);
      ListingStep(env, text[|text| - 1], ListLines(env, text[..|text| - 1]), FirstMention(env, text[..|text| - 1], h), h);
    }
  }

  /** Adding one line of text to a listing. */
  lemma ListingStep(env: Env, line: string, l: Listing, first: Option<Ip>, h: Host)
    requires h in l.seen <==> first.Some?
    requires h in l.seen <==> exists i :: 0 <= i < |l.lines| && Lists(l.lines, h, i)
    requires forall i :: 0 <= i < |l.lines| && Lists(l.lines, h, i) ==> l.lines[i].ip == first
    requires forall i, j :: 0 <= i < j < |l.lines| && Lists(l.lines, h, i) ==> !Lists(l.lines, h, j)
    ensures var k := ListLine(env, line, l); var entry := View(env, line);
      var now := if first.Some? then first else if entry.Mapping? && h in entry.hosts then Some(entry.ip) else None;
      && (h in k.seen <==> now.Some?)
      && (h in k.seen <==> exists i :: 0 <= i < |k.lines| && Lists(k.lines, h, i))
      && (forall i :: 0 <= i < |k.lines| && Lists(k.lines, h, i) ==> k.lines[i].ip == now)
      && (forall i, j :: 0 <= i < j < |k.lines| && Lists(k.lines, h, i) ==> !Lists(k.lines, h, j))
  {
    OkLinesHaveHosts(env, line);
    var p := Parse(env, line, true);
    hide Parse;
    var k := ListLine(env, line, l);
    var n := |l.lines|;
    assert k.lines[..n] == l.lines;
    assert forall i :: 0 <= i < n ==> Lists(k.lines, h, i) == Lists(l.lines, h, i);
    if i :| 0 <= i < n && Lists(l.lines, h, i) {
      assert Lists(k.lines, h, i);
    }
    if p.ok && p.line.ip.Some? && h in p.line.hosts && h !in l.seen {
      assert Lists(k.lines, h, n);
    }
  }

  lemma OkLinesHaveHosts(env: Env, line: string)
    ensures var p := Parse(env, line, true); p.ok ==> (p.line.ip.Some? <==> !p.line.OnlyComments())
  {
  }
}
