// Adding the server's host mappings to a hosts file and taking them out again
// (common/hosts/hosts.go, mappings.go, launcher-config-admin/internal/hosts/hosts.go),
// on the lines a scanner reads.
module HostsFile {
  import opened Wrappers
  import opened Text
  import opened HostLine

  /** The wanted mappings that the file does not hold yet. */
  class HostMappings {
    var entries: map<Host, Ip>

    constructor (entries: map<Host, Ip>)
      ensures this.entries == entries
    {
      this.entries := entries;
    }

    method Get(host: Host) returns (ip: Option<Ip>)
      ensures ip == if host in entries then Some(entries[host]) else None
    {
      ip := if host in entries then Some(entries[host]) else None;
    }

    method Delete(host: Host)
      modifies this
      ensures entries == old(entries) - {host}
    {
      entries := entries - {host};
    }

    /** One own-marked line a mapping, in whatever order the map yields them. */
    method Lines() returns (lines: seq<Line>)
      ensures exists order :: Enumerates(order, entries.Keys) && lines == MappingLines(order, entries)
    {
      lines := [];
      ghost var order: seq<Host> := [];
      var rest := entries.Keys;
      while rest != {}
        invariant rest <= entries.Keys
        invariant Enumerates(order, entries.Keys - rest)
        invariant lines == MappingLines(order, entries)
      {
        var host :| host in rest;
        var line := Line(Some(entries[host]), [host], []).WithOwnMarking();
        assert line.comments == [MARKING];
        lines := lines + [line];
        assert (order + [host])[..|order|] == order;
        order := order + [host];
        rest := rest - {host};
      }
      assert Enumerates(order, entries.Keys);
    }
  }

  predicate Enumerates(order: seq<Host>, keys: set<Host>) {
    && (forall i :: 0 <= i < |order| ==> order[i] in keys)
    && (forall h :: h in keys ==> h in order)
    && (forall i, j :: 0 <= i < j < |order| ==> order[i] != order[j])
  }

  function MappingLines(order: seq<Host>, m: map<Host, Ip>): seq<Line>
    requires forall i :: 0 <= i < |order| ==> order[i] in m
  {
    seq(|order|, i requires 0 <= i < |order| => Line(Some(m[order[i]]), [order[i]], [MARKING]))
  }

  // ---------- rewriting ----------

  /** Comments out a raw line; the marker in front makes any text parse. */
  function CommentText(env: Env, line: string): Option<Line> {
    var p := Parse(env, [COMMENT_MARKER] + line, true);
    if !p.ok then None
    else
      match p.line.Commented(env)
      case None => None
      case Some(l) => Some(l.WithOwnMarking())
  }

  datatype Taken = Taken(avoid: set<nat>, mappings: map<Host, Ip>)

  /** The positions of hosts already mapped as wanted, and the mappings still missing. */
  function TakeMappings(ip: Ip, hosts: seq<Host>, m: map<Host, Ip>): (t: Taken)
    ensures t.mappings.Keys <= m.Keys
    ensures forall h :: h in t.mappings ==> t.mappings[h] == m[h]
  {
    if hosts == [] then Taken({}, m)
    else
      var last := |hosts| - 1;
      var t := TakeMappings(ip, hosts[..last], m);
      if hosts[last] in t.mappings && t.mappings[hosts[last]] == ip
      then Taken(t.avoid + {last}, t.mappings - {hosts[last]})
      else t
  }

  function KeepHosts(env: Env, hosts: seq<Host>, avoid: set<nat>): (kept: seq<Host>)
    ensures |kept| <= |hosts|
    ensures |kept| == |hosts| ==> kept == hosts
    ensures forall i :: 0 <= i < |kept| ==> kept[i] in hosts
  {
    if hosts == [] then []
    else
      var last := |hosts| - 1;
      var before := KeepHosts(env, hosts[..last], avoid);
      assert hosts == hosts[..last] + [hosts[last]];
      if last in avoid || env.CommentHost(hosts[last]) then before else before + [hosts[last]]
  }

  datatype Rewritten = Rewritten(lines: seq<Line>, mappings: map<Host, Ip>)

  function RewriteAddressLine(env: Env, line: string, p: Parsed, ip: Ip, m: map<Host, Ip>): Rewritten {
    var taken := TakeMappings(ip, p.line.hosts, m);
    var kept := KeepHosts(env, p.line.hosts, taken.avoid);
    var whole := if p.overLimit then CommentText(env, line) else None;
    var removed := |kept| < |p.line.hosts| || whole.Some?;
    var source := if whole.Some? then whole.value else p.line;
    var active := Line(Some(ip), kept, []);
    Rewritten(
      (if removed && source.Commented(env).Some? then [source.Commented(env).value.WithOwnMarking()] else [])
      + (if kept == [] then [] else [if removed then active.WithOwnMarking() else active]),
      taken.mappings)
  }

  /** What missingIpMappings does with one line of the file. */
  function RewriteLine(env: Env, line: string, m: map<Host, Ip>): Rewritten {
    var p := Parse(env, line, false);
    if !p.ok then
      match CommentText(env, line)
      case None => Rewritten([], m)
      case Some(l) =>
        if l.OnlyComments() then Rewritten([l], m)
        else if l.ip.Some? then RewriteAddressLine(env, line, Parsed(true, p.overLimit, l), l.ip.value, m)
        else Rewritten([], m)
    else if p.line.ip.None? then Rewritten([p.line], m)
    else RewriteAddressLine(env, line, p, p.line.ip.value, m)
  }

  function RewriteLines(env: Env, lines: seq<string>, m: map<Host, Ip>): Rewritten {
    if lines == [] then Rewritten([], m)
    else
      var before := RewriteLines(env, lines[..|lines| - 1], m);
      var r := RewriteLine(env, lines[|lines| - 1], before.mappings);
      Rewritten(before.lines + r.lines, r.mappings)
  }

  lemma CommentTextOk(env: Env, line: string)
    ensures CommentText(env, line)
      == Some(Line(None, [], Split(line, COMMENT_MARKER)).WithOwnMarking())
  {
    ParseCommentedText(env, line);
  }

  /** The first host loop: hosts mapped as wanted leave the map, and their positions are noted. */
  method FindMapped(ip: Ip, hosts: seq<Host>, mappings: HostMappings) returns (indexesToAvoid: set<nat>)
    modifies mappings
    ensures Taken(indexesToAvoid, mappings.entries) == TakeMappings(ip, hosts, old(mappings.entries))
  {
    indexesToAvoid := {};
    for i := 0 to |hosts|
      invariant Taken(indexesToAvoid, mappings.entries) == TakeMappings(ip, hosts[..i], old(mappings.entries))
    {
      assert hosts[..i + 1][..i] == hosts[..i];
      var mapped := mappings.Get(hosts[i]);
      if mapped == Some(ip) {
        mappings.Delete(hosts[i]);
        indexesToAvoid := indexesToAvoid + {i};
      }
    }
    assert hosts[..|hosts|] == hosts;
  }

  /** The second host loop: the hosts that stay. */
  method KeepOthers(env: Env, hosts: seq<Host>, indexesToAvoid: set<nat>)
    returns (keptHosts: seq<Host>, removedHosts: bool)
    ensures keptHosts == KeepHosts(env, hosts, indexesToAvoid)
    ensures removedHosts <==> |keptHosts| < |hosts|
  {
    keptHosts, removedHosts := [], false;
    for i := 0 to |hosts|
      invariant keptHosts == KeepHosts(env, hosts[..i], indexesToAvoid)
      invariant removedHosts <==> |keptHosts| < i
    {
      assert hosts[..i + 1][..i] == hosts[..i];
      if i in indexesToAvoid || env.CommentHost(hosts[i]) {
        removedHosts := true;
      } else {
        keptHosts := keptHosts + [hosts[i]];
      }
    }
    assert hosts[..|hosts|] == hosts;
  }

  /** The scan of missingIpMappings: the new lines, with the mappings found removed from the map. */
  method MissingIpMappings(env: Env, lines: seq<string>, mappings: HostMappings) returns (restLines: seq<Line>)
    modifies mappings
    ensures RewriteLines(env, lines, old(mappings.entries)) == Rewritten(restLines, mappings.entries)
  {
    restLines := [];
    for i := 0 to |lines|
      invariant RewriteLines(env, lines[..i], old(mappings.entries)) == Rewritten(restLines, mappings.entries)
    {
      assert lines[..i + 1][..i] == lines[..i];
      var added := RewriteOne(env, lines[i], mappings);
      restLines := restLines + added;
    }
    assert lines[..|lines|] == lines;
  }

  method RewriteOne(env: Env, line: string, mappings: HostMappings) returns (restLines: seq<Line>)
    modifies mappings
    ensures RewriteLine(env, line, old(mappings.entries)) == Rewritten(restLines, mappings.entries)
  {
    hide Parse, Split, TakeMappings, KeepHosts, CommentText, Line.Show;
    restLines := [];
    var ok, overLimit, lineParsed := ParseLine(env, line, false);
    CommentTextOk(env, line);
    if !ok {
      var commented := CommentText(env, line);
      if commented.None? {
        return;
      }
      lineParsed := commented.value;
    }
    if lineParsed.ip.None? {
      return [lineParsed];
    }
    var ip := lineParsed.ip.value;
    var indexesToAvoid := FindMapped(ip, lineParsed.hosts, mappings);
    var keptHosts, removedHosts := KeepOthers(env, lineParsed.hosts, indexesToAvoid);
    if overLimit {
      var commented := CommentText(env, line);
      if commented.Some? {
        lineParsed := commented.value;
        removedHosts := true;
      }
    }
    if removedHosts {
      var nl := lineParsed.Commented(env);
      if nl.Some? {
        restLines := [nl.value.WithOwnMarking()];
      }
    }
    if keptHosts != [] {
      var nl := Line(Some(ip), keptHosts, []);
      restLines := restLines + [if removedHosts then nl.WithOwnMarking() else nl];
    }
  }

  function ShowLines(env: Env, lines: seq<Line>): (shown: seq<string>)
    ensures |shown| == |lines|
  {
    seq(|lines|, i requires 0 <= i < |lines| => lines[i].Show(env))
  }

  /** The lines of the rewritten file: the kept lines, a blank one, and the new mappings. */
  function WrittenLines(env: Env, r: Rewritten, order: seq<Host>): seq<string>
    requires Enumerates(order, r.mappings.Keys)
  {
    ShowLines(env, r.lines) + [""] + ShowLines(env, MappingLines(order, r.mappings))
  }

  /** AddHosts on the lines of the file; None when no mapping is missing and the file stays as it is. */
  method AddHosts(env: Env, lines: seq<string>, wanted: map<Host, Ip>) returns (written: Option<seq<string>>)
    ensures var r := RewriteLines(env, lines, wanted);
      if r.mappings == map[] then written == None
      else exists order :: Enumerates(order, r.mappings.Keys) && written == Some(WrittenLines(env, r, order))
  {
    var mappings := new HostMappings(wanted);
    var restLines := MissingIpMappings(env, lines, mappings);
    if mappings.entries == map[] {
      return None;
    }
    var mappingLines := mappings.Lines();
    ghost var order :| Enumerates(order, mappings.entries.Keys) && mappingLines == MappingLines(order, mappings.entries);
    written := Some(ShowLines(env, restLines) + [""] + ShowLines(env, mappingLines));
    assert written == Some(WrittenLines(env, RewriteLines(env, lines, wanted), order));
  }

  // ---------- restoring ----------

  datatype LineOutcome = Drop | Keep(text: string) | Panic

  /** What restoreInPlace does with one line. */
  function RestoreLine(env: Env, s: string): LineOutcome {
    var p := Parse(env, s, true);
    if !p.ok then Drop
    else if !p.line.Own() then Keep(s)
    else if !p.line.OnlyComments() then Drop
    else
      match p.line.WithoutOwnMarking().Uncommented(env)
      case None => Panic
      case Some(text) => Keep(text)
  }

  function Extend(before: Option<seq<string>>, last: LineOutcome): Option<seq<string>> {
    if before.None? || last.Panic? then None
    else if last.Drop? then before
    else Some(before.value + [last.text])
  }

  function Collect(outcomes: seq<LineOutcome>): Option<seq<string>> {
    if outcomes == [] then Some([])
    else Extend(Collect(outcomes[..|outcomes| - 1]), outcomes[|outcomes| - 1])
  }

  function Outcomes(env: Env, lines: seq<string>): (outcomes: seq<LineOutcome>)
    ensures |outcomes| == |lines|
    ensures forall i :: 0 <= i < |lines| ==> outcomes[i] == RestoreLine(env, lines[i])
  {
    seq(|lines|, i requires 0 <= i < |lines| => RestoreLine(env, lines[i]))
  }

  /** The restored lines, or None when some line makes the pass panic. */
  function RestoreLines(env: Env, lines: seq<string>): Option<seq<string>> {
    Collect(Outcomes(env, lines))
  }

  /** The body of the scan in restoreInPlace. */
  method RestoreOne(env: Env, s: string) returns (outcome: LineOutcome)
    ensures outcome == RestoreLine(env, s)
  {
    var ok, _, parsed := ParseLine(env, s, true);
    if !ok {
      return Drop;
    }
    if parsed.Own() {
      if parsed.OnlyComments() {
        var text := parsed.WithoutOwnMarking().Uncommented(env);
        return if text.None? then Panic else Keep(text.value);
      }
      return Drop;
    }
    return Keep(s);
  }

  /** The line pass of restoreInPlace. */
  method RestoreInPlace(env: Env, lines: seq<string>) returns (restored: Option<seq<string>>)
    ensures restored == RestoreLines(env, lines)
  {
    ghost var outcomes := Outcomes(env, lines);
    var kept: seq<string> := [];
    for i := 0 to |lines|
      invariant Collect(outcomes[..i]) == Some(kept)
    {
      CollectStep(outcomes, i);
      var outcome := RestoreOne(env, lines[i]);
      if outcome.Panic? {
        CollectPanics(outcomes);
        return None;
      }
      if outcome.Keep? {
        kept := kept + [outcome.text];
      }
    }
    assert outcomes[..|lines|] == outcomes;
    restored := Some(kept);
  }

  lemma CollectStep(outcomes: seq<LineOutcome>, i: nat)
    requires i < |outcomes|
    ensures Collect(outcomes[..i + 1]) == Extend(Collect(outcomes[..i]), outcomes[i])
  {
    assert outcomes[..i + 1][..i] == outcomes[..i];
  }

  lemma {:induction false} CollectPanics(outcomes: seq<LineOutcome>)
    ensures Collect(outcomes) == None <==> Panic in outcomes
  {
    if outcomes == [] {
    } else {
      CollectPanics(outcomes[..|outcomes| - 1]);
      assert outcomes == outcomes[..|outcomes| - 1] + [outcomes[|outcomes| - 1]];
    }
  }

  function Concat(x: Option<seq<string>>, y: Option<seq<string>>): Option<seq<string>> {
    if x.None? || y.None? then None else Some(x.value + y.value)
  }

  lemma ExtendConcat(x: Option<seq<string>>, y: Option<seq<string>>, last: LineOutcome)
    ensures Extend(Concat(x, y), last) == Concat(x, Extend(y, last))
  {
    if x.Some? && y.Some? && last.Keep? {
      assert x.value + y.value + [last.text] == x.value + (y.value + [last.text]);
    }
  }

  lemma {:induction false} CollectAppend(a: seq<LineOutcome>, b: seq<LineOutcome>)
    ensures Collect(a + b) == Concat(Collect(a), Collect(b))
  {
    if b == [] {
      assert a + b == a;
      assert Collect(a).Some? ==> Collect(a).value + [] == Collect(a).value;
    } else {
      var n := |b| - 1;
      CollectAppend(a, b[..n]);
      assert (a + b)[..|a + b| - 1] == a + b[..n];
      ExtendConcat(Collect(a), Collect(b[..n]), b[n]);
    }
  }

  lemma RestoreAppend(env: Env, a: seq<string>, b: seq<string>)
    ensures RestoreLines(env, a + b) == Concat(RestoreLines(env, a), RestoreLines(env, b))
  {
    assert Outcomes(env, a + b) == Outcomes(env, a) + Outcomes(env, b);
    CollectAppend(Outcomes(env, a), Outcomes(env, b));
  }
}
