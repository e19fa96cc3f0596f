// The string operations the program takes from Go's "strings" and "bufio" packages.
// A char stands for one byte of the text, so |s| is Go's len(s).
module Text {

  predicate IsSpace(c: char) {
    c == ' ' || c == '\t' || c == '\n' || c == '\r' || c as int == 11 || c as int == 12
  }

  predicate SpaceFree(s: string) {
    forall i :: 0 <= i < |s| ==> !IsSpace(s[i])
  }

  /** The position of the first c in s, or |s| when there is none. */
  function IndexOf(s: string, c: char): (i: nat)
    ensures i <= |s|
    ensures i < |s| ==> s[i] == c
    ensures c !in s[..i]
    ensures i == |s| <==> c !in s
  {
    if s == "" then 0
    else if s[0] == c then 0
    else
      var r := IndexOf(s[1..], c);
      assert s[..1 + r] == [s[0]] + s[1..][..r];
      assert s == [s[0]] + s[1..];
      1 + r
  }

  /** strings.Split for a one-byte separator. */
  function Split(s: string, c: char): (parts: seq<string>)
    ensures parts != []
    decreases |s|
  {
    var i := IndexOf(s, c);
    if i == |s| then [s] else [s[..i]] + Split(s[i + 1..], c)
  }

  /** strings.Join. */
  function Join(parts: seq<string>, sep: string): string {
    if parts == [] then ""
    else if |parts| == 1 then parts[0]
    else parts[0] + sep + Join(parts[1..], sep)
  }

  /** Length of the longest prefix without white space. */
  function TokenLength(s: string): (n: nat)
    ensures n <= |s|
    ensures SpaceFree(s[..n])
    ensures n < |s| ==> IsSpace(s[n])
  {
    if s == "" || IsSpace(s[0]) then 0
    else
      var r := TokenLength(s[1..]);
      assert s[..1 + r] == [s[0]] + s[1..][..r];
      1 + r
  }

  /** strings.Fields. */
  function Fields(s: string): seq<string>
    decreases |s|
  {
    if s == "" then []
    else if IsSpace(s[0]) then Fields(s[1..])
    else
      var n := TokenLength(s);
      [s[..n]] + Fields(s[n..])
  }

  /** Writing at the start of a file leaves whatever the old text had behind the new. */
  function Overwrite(before: string, after: string): string {
    if |after| <= |before| then after + before[|after|..] else after
  }

  // ---------- split and join ----------

  lemma IndexOfAppend(s: string, c: char, t: string)
    requires c !in s
    ensures IndexOf(s + [c] + t, c) == |s|
  {
    var u := s + [c] + t;
    assert u[|s|] == c;
    assert u[..|s|] == s;
  }

  lemma SplitWhole(s: string, c: char)
    requires c !in s
    ensures Split(s, c) == [s]
  {
    assert IndexOf(s, c) == |s|;
  }

  lemma SplitHead(head: string, c: char, t: string)
    requires c !in head
    ensures Split(head + [c] + t, c) == [head] + Split(t, c)
  {
    var s := head + [c] + t;
    IndexOfAppend(head, c, t);
    assert s[..|head|] == head && s[|head| + 1..] == t;
  }

  lemma CutAt(s: string, i: nat, c: char, t: string)
    requires i < |s| && s[i] == c
    ensures s == s[..i] + [c] + s[i + 1..]
    ensures s + [c] + t == s[..i] + [c] + (s[i + 1..] + [c] + t)
  {
    var u, v := s + [c] + t, s[..i] + [c] + (s[i + 1..] + [c] + t);
    assert |u| == |v|;
    assert forall k :: 0 <= k < |u| ==> u[k] == v[k];
  }

  lemma {:induction false} SplitAppend(s: string, c: char, t: string)
    ensures Split(s + [c] + t, c) == Split(s, c) + Split(t, c)
    decreases |s|
  {
    var i := IndexOf(s, c);
    if i == |s| {
      SplitHead(s, c, t);
    } else {
      hide Split;
      var head, rest := s[..i], s[i + 1..];
      CutAt(s, i, c, t);
      SplitHead(head, c, rest);
      SplitHead(head, c, rest + [c] + t);
      SplitAppend(rest, c, t);
      ConsAppend(head, Split(rest, c), Split(t, c));
    }
  }

  lemma ConsAppend(x: string, a: seq<string>, b: seq<string>)
    ensures [x] + (a + b) == [x] + a + b
  {
  }

  lemma JoinCons(first: string, rest: seq<string>, sep: string)
    requires rest != []
    ensures Join([first] + rest, sep) == first + sep + Join(rest, sep)
  {
    assert ([first] + rest)[1..] == rest;
  }

  lemma JoinOne(part: string, sep: string)
    ensures Join([part], sep) == part
  {
  }

  lemma SplitCut(s: string, c: char)
    requires c in s
    ensures var i := IndexOf(s, c); Split(s, c) == [s[..i]] + Split(s[i + 1..], c)
  {
  }

  lemma {:induction false} JoinSplit(s: string, c: char)
    ensures Join(Split(s, c), [c]) == s
    decreases |s|
  {
    hide Split, Join, IndexOf;
    var i := IndexOf(s, c);
    if i == |s| {
      SplitWhole(s, c);
      JoinOne(s, [c]);
    } else {
      var head, rest := s[..i], s[i + 1..];
      JoinSplit(rest, c);
      SplitCut(s, c);
      JoinCons(head, Split(rest, c), [c]);
      CutAt(s, i, c, "");
    }
  }

  lemma {:induction false} SplitJoin(parts: seq<string>, c: char)
    requires parts != []
    requires forall i :: 0 <= i < |parts| ==> c !in parts[i]
    ensures Split(Join(parts, [c]), c) == parts
  {
    if |parts| == 1 {
      JoinOne(parts[0], [c]);
      SplitWhole(parts[0], c);
    } else {
      hide *;
      var rest := parts[1..];
      assert parts == [parts[0]] + rest;
      SplitJoin(rest, c);
      JoinCons(parts[0], rest, [c]);
      SplitHead(parts[0], c, Join(rest, [c]));
    }
  }

  lemma {:induction false} SplitPartsClean(s: string, c: char)
    ensures forall i :: 0 <= i < |Split(s, c)| ==> c !in Split(s, c)[i]
    decreases |s|
  {
    var i := IndexOf(s, c);
    if i < |s| {
      SplitPartsClean(s[i + 1..], c);
    }
  }

  lemma {:induction false} JoinAppend(parts: seq<string>, last: string, sep: string)
    requires parts != []
    ensures Join(parts + [last], sep) == Join(parts, sep) + sep + last
  {
    if |parts| == 1 {
      assert (parts + [last])[1..] == [last];
    } else {
      JoinAppend(parts[1..], last, sep);
      assert (parts + [last])[1..] == parts[1..] + [last];
    }
  }

  // ---------- fields ----------

  lemma {:induction false} TokenLengthOf(tok: string, rest: string)
    requires SpaceFree(tok)
    requires rest == "" || IsSpace(rest[0])
    ensures TokenLength(tok + rest) == |tok|
  {
    if tok != "" {
      TokenLengthOf(tok[1..], rest);
      assert (tok + rest)[1..] == tok[1..] + rest;
    } else {
      assert tok + rest == rest;
    }
  }

  lemma FieldsToken(tok: string, rest: string)
    requires tok != "" && SpaceFree(tok)
    requires rest == "" || IsSpace(rest[0])
    ensures Fields(tok + rest) == [tok] + Fields(rest)
  {
    TokenLengthOf(tok, rest);
    var s := tok + rest;
    assert s[0] == tok[0];
    assert s[..|tok|] == tok && s[|tok|..] == rest;
  }

  /** White space at the end adds no field. */
  lemma {:induction false} FieldsTrailing(s: string, c: char)
    requires IsSpace(c)
    ensures Fields(s + [c]) == Fields(s)
    decreases |s|
  {
    if s == "" {
      assert s + [c] == [c];
      assert Fields([c][1..]) == [];
    } else if IsSpace(s[0]) {
      FieldsTrailing(s[1..], c);
      assert (s + [c])[1..] == s[1..] + [c];
    } else {
      var n := TokenLength(s);
      assert s + [c] == s[..n] + (s[n..] + [c]);
      FieldsToken(s[..n], s[n..] + [c]);
      FieldsTrailing(s[n..], c);
    }
  }

  /** A text cut at any white space has the fields of both parts, in order. */
  lemma {:induction false} FieldsAppend(a: string, c: char, b: string)
    requires c == ' ' || c == '\t' || c == '\n' || c == '\r' || c as int == 11 || c as int == 12
    ensures Fields(a + [c] + b) == Fields(a) + Fields(b)
    decreases |a|
  {
    JoinCut(a, [c], b);
    if a == "" {
      assert ([c] + b)[1..] == b;
      assert a + [c] + b == [c] + b;
    } else if IsSpace(a[0]) {
      FieldsAppend(a[1..], c, b);
      assert (a + [c] + b)[1..] == a[1..] + [c] + b;
    } else {
      hide Fields;
      var n := TokenLength(a);
      FieldsAppend(a[n..], c, b);
      CutFields(a, n, [c] + b);
      JoinCut(a[n..], [c], b);
      ConsAppend(a[..n], Fields(a[n..]), Fields(b));
    }
  }

  lemma CutFields(a: string, n: nat, rest: string)
    requires a != "" && !IsSpace(a[0]) && n == TokenLength(a) && rest != "" && IsSpace(rest[0])
    ensures Fields(a) == [a[..n]] + Fields(a[n..]) && Fields(a + rest) == [a[..n]] + Fields(a[n..] + rest)
  {
    hide Fields;
    var tok, more := a[..n], a[n..];
    assert a == tok + more;
    FieldsToken(tok, more);
    assert (more + rest)[0] == if more == "" then rest[0] else more[0];
    FieldsToken(tok, more + rest);
    JoinCut(tok, more, rest);
  }

  lemma JoinCut(a: string, b: string, c: string)
    ensures a + (b + c) == a + b + c
  {
  }

  /** A text without white space is one field. */
  lemma FieldsOne(tok: string)
    requires tok != "" && forall i :: 0 <= i < |tok| ==>
      tok[i] !in " \t\n\r" && tok[i] as int != 11 && tok[i] as int != 12
    ensures Fields(tok) == [tok]
  {
    FieldsToken(tok, "");
    assert tok + "" == tok;
  }

  lemma {:induction false} FieldsFit(s: string)
    ensures |Fields(s)| <= |s|
    decreases |s|
  {
    if s != "" {
      FieldsFit(if IsSpace(s[0]) then s[1..] else s[TokenLength(s)..]);
    }
  }

  /** Printing tokens with single spaces and reading the fields back changes nothing. */
  lemma {:induction false} FieldsJoin(tokens: seq<string>)
    requires forall i :: 0 <= i < |tokens| ==> tokens[i] != "" && SpaceFree(tokens[i])
    ensures Fields(Join(tokens, " ")) == tokens
  {
    if |tokens| == 1 {
      FieldsToken(tokens[0], "");
      assert tokens[0] + "" == tokens[0];
    } else if |tokens| > 1 {
      FieldsJoin(tokens[1..]);
      var rest := Join(tokens[1..], " ");
      FieldsToken(tokens[0], " " + rest);
      assert tokens[0] + " " + rest == tokens[0] + (" " + rest);
      assert (" " + rest)[1..] == rest;
    }
  }

  lemma {:induction false} FieldsWithout(s: string, c: char)
    requires c !in s
    ensures forall i :: 0 <= i < |Fields(s)| ==> c !in Fields(s)[i]
    decreases |s|
  {
    if s != "" {
      if IsSpace(s[0]) {
        FieldsWithout(s[1..], c);
      } else {
        FieldsWithout(s[TokenLength(s)..], c);
      }
    }
  }

  lemma {:induction false} FieldsClean(s: string)
    ensures forall i :: 0 <= i < |Fields(s)| ==> Fields(s)[i] != "" && SpaceFree(Fields(s)[i])
    decreases |s|
  {
    if s != "" {
      if IsSpace(s[0]) {
        FieldsClean(s[1..]);
      } else {
        FieldsClean(s[TokenLength(s)..]);
      }
    }
  }
}
