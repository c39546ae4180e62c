/** `buildMermaid` and `escapeMermaid`: the Mermaid flowchart text the
    extension renders from the scanned nodes and edges. */
module Mermaid {
  import opened JsText
  import opened Pipeline

  /** `s.replace(/"/g, '\\"')`: every double quote is preceded by a
      backslash; nothing else changes. */
  function EscapeMermaid(s: string): (r: string)
    ensures forall i | 0 <= i < |r| :: r[i] == '"' ==> i > 0 && r[i - 1] == '\\'
    ensures forall i | 0 <= i < |r| :: r[i] == '\\' || r[i] in s
    ensures (forall i | 0 <= i < |s| :: s[i] != '"') ==> r == s
    decreases |s|
  {
    if |s| == 0 then ""
    else (if s[0] == '"' then "\\\"" else [s[0]]) + EscapeMermaid(s[1..])
  }

  /** The inverse reading: a backslash followed by a double quote is a
      double quote; every other character stands for itself. */
  function Unescape(r: string): string
    decreases |r|
  {
    if |r| == 0 then ""
    else if |r| >= 2 && r[0] == '\\' && r[1] == '"' then "\"" + Unescape(r[2..])
    else [r[0]] + Unescape(r[1..])
  }

  /** Escaping loses nothing: reading the escaped text back gives the
      original label. */
  lemma {:induction false} UnescapeEscape(s: string)
    ensures Unescape(EscapeMermaid(s)) == s
    decreases |s|
  {
    if |s| > 0 {
      var rest := EscapeMermaid(s[1..]);
      UnescapeEscape(s[1..]);
      if s[0] == '"' {
        assert EscapeMermaid(s) == "\\\"" + rest;
        assert ("\\\"" + rest)[2..] == rest;
      } else {
        assert EscapeMermaid(s) == [s[0]] + rest;
        assert ([s[0]] + rest)[1..] == rest;
        if |rest| > 0 && s[0] == '\\' {
          assert rest[0] != '"';
        }
      }
      assert s == [s[0]] + s[1..];
    }
  }

  /** The escaped text is one character longer per double quote. */
  lemma {:induction false} EscapeLength(s: string)
    ensures |EscapeMermaid(s)| == |s| + Count(s, '"')
    decreases |s|
  {
    if |s| > 0 {
      EscapeLength(s[1..]);
      assert s == [s[0]] + s[1..];
      CountAppend([s[0]], s[1..], '"');
      assert [s[0]][..0] == [];
    }
  }

  /** `n.label || n.id`: the label unless it is empty. */
  function Label(n: Node): string
  {
    if n.name != "" then n.name else n.id
  }

  /** `  ${n.id}["${escapeMermaid(n.label || n.id)}"]`. */
  function NodeLine(n: Node): string
  {
    "  " + n.id + "[\"" + EscapeMermaid(Label(n)) + "\"]"
  }

  /** A node line is two spaces, the id, and the escaped text in `["…"]`;
      reading the text back gives the label, or the id when the label is
      empty (`||` treats the empty string as absent). */
  lemma NodeLineLabel(n: Node)
    ensures var l := NodeLine(n);
            && |l| == |n.id| + 6 + |EscapeMermaid(Label(n))|
            && l[..2] == "  " && l[2..|n.id| + 2] == n.id
            && l[|n.id| + 2..|n.id| + 4] == "[\"" && l[|l| - 2..] == "\"]"
            && Unescape(l[|n.id| + 4..|l| - 2]) == (if n.name != "" then n.name else n.id)
  {
    var e := EscapeMermaid(Label(n));
    var a := "  " + n.id;
    var b := a + "[\"";
    var c := b + e;
    var l := c + "\"]";
    assert NodeLine(n) == l;
    assert |a| == |n.id| + 2 && |b| == |n.id| + 4 && |l| == |c| + 2;
    assert l[..|c|] == c;
    assert c[..|b|] == b && c[|b|..] == e;
    assert b[..|a|] == a && b[|a|..] == "[\"";
    assert a[..2] == "  " && a[2..] == n.id;
    assert l[|c|..] == "\"]";
    assert l[|b|..|c|] == e;
    assert l[..|a|] == a;
    assert l[|a|..|b|] == "[\"";
    UnescapeEscape(Label(n));
  }

  /** `  ${e.from} --> ${e.to}`. */
  function EdgeLine(e: Edge): string
  {
    "  " + e.from + " --> " + e.to
  }

  const Header: string := "flowchart TD"

  /** The `lines` array: the header, one line per node, then one line per
      edge, in the order of the collections. */
  function MermaidLines(nodes: seq<Node>, edges: seq<Edge>): (ls: seq<string>)
    ensures |ls| == 1 + |nodes| + |edges|
    ensures ls[0] == Header
    ensures forall i | 0 <= i < |nodes| :: ls[1 + i] == NodeLine(nodes[i])
    ensures forall j | 0 <= j < |edges| :: ls[1 + |nodes| + j] == EdgeLine(edges[j])
  {
    [Header]
    + seq(|nodes|, i requires 0 <= i < |nodes| => NodeLine(nodes[i]))
    + seq(|edges|, j requires 0 <= j < |edges| => EdgeLine(edges[j]))
  }

  /** `buildMermaid(nodes, edges)`: the lines joined with newlines. */
  function BuildMermaid(nodes: seq<Node>, edges: seq<Edge>): string
  {
    JoinWith(MermaidLines(nodes, edges), "\n")
  }

  ghost predicate NoNewline(s: string)
  {
    forall i | 0 <= i < |s| :: s[i] != '\n'
  }

  /** No id, label or endpoint holds a line break. */
  ghost predicate SingleLine(nodes: seq<Node>, edges: seq<Edge>)
  {
    && (forall k | 0 <= k < |nodes| :: NoNewline(nodes[k].id) && NoNewline(nodes[k].name))
    && (forall k | 0 <= k < |edges| :: NoNewline(edges[k].from) && NoNewline(edges[k].to))
  }

  lemma NodeLineSingle(n: Node)
    requires NoNewline(n.id) && NoNewline(n.name)
    ensures NoNewline(NodeLine(n))
  {
    var e := EscapeMermaid(Label(n));
    assert NoNewline(e);
  }

  lemma EdgeLineSingle(e: Edge)
    requires NoNewline(e.from) && NoNewline(e.to)
    ensures NoNewline(EdgeLine(e))
  {
  }

  lemma HeaderSingle()
    ensures NoNewline(Header)
  {
  }

  /** No line of the chart holds a line break. */
  lemma LinesSingle(nodes: seq<Node>, edges: seq<Edge>)
    requires SingleLine(nodes, edges)
    ensures var ls := MermaidLines(nodes, edges);
            forall k, i | 0 <= k < |ls| && 0 <= i < |ls[k]| :: ls[k][i] != '\n'
  {
    var ls := MermaidLines(nodes, edges);
    forall k | 0 <= k < |ls|
      ensures NoNewline(ls[k])
    {
      if k == 0 {
        HeaderSingle();
      } else if k <= |nodes| {
        NodeLineSingle(nodes[k - 1]);
      } else {
        EdgeLineSingle(edges[k - 1 - |nodes|]);
      }
    }
  }

  /** Splitting the chart at its newlines gives back the header, the node
      lines and the edge lines, as long as no id, label or endpoint holds a
      line break: there is exactly one line per node and per edge. */
  lemma BuildMermaidLines(nodes: seq<Node>, edges: seq<Edge>)
    requires SingleLine(nodes, edges)
    ensures SplitOn(BuildMermaid(nodes, edges), "\n") == MermaidLines(nodes, edges)
  {
    LinesSingle(nodes, edges);
    SplitJoin(MermaidLines(nodes, edges), '\n');
  }

  /** A chart without nodes or edges is the header alone. */
  lemma EmptyChart()
    ensures BuildMermaid([], []) == Header
  {
  }
}
