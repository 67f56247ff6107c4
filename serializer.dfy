/** What write_tree emits, as functions of the arena, and the multipart
    layout of section 5.1.1 of RFC 2046 that it produces (with LF line
    ends, no preamble and no epilogue). */
module Serializer {
  import opened MimeTypes
  import opened HeaderNames
  import opened PartTree

  /** The characters write_ct_with_boundary skips at the end of a value. */
  predicate IsBlank(c: char) {
    c == ' ' || c == '\t' || c == '\n'
  }

  function TrimRight(v: string): (r: string)
    ensures |r| <= |v| && r == v[..|r|]
    ensures r != [] ==> !IsBlank(r[|r| - 1])
  {
    if v != [] && IsBlank(v[|v| - 1]) then TrimRight(v[..|v| - 1]) else v
  }

  /** The backward scan of write_ct_with_boundary: the index of the last
      character of VALUE that is not blank, or -1 when there is none. */
  method LastNonBlank(value: string) returns (k: int)
    ensures -1 <= k < |value|
    ensures k >= 0 ==> !IsBlank(value[k])
    ensures forall j :: k < j < |value| ==> IsBlank(value[j])
  {
    k := |value| - 1;
    while k >= 0 && IsBlank(value[k])
      invariant -1 <= k < |value|
      invariant forall j :: k < j < |value| ==> IsBlank(value[j])
    {
      k := k - 1;
    }
  }

  /** The scan's answer is where TrimRight cuts. */
  lemma {:induction false} TrimRightAt(v: string, k: int)
    requires -1 <= k < |v|
    requires k >= 0 ==> !IsBlank(v[k])
    requires forall j :: k < j < |v| ==> IsBlank(v[j])
    ensures TrimRight(v) == v[..k + 1]
    decreases |v|
  {
    if k + 1 < |v| {
      assert v[..|v| - 1][..k + 1] == v[..k + 1];
      TrimRightAt(v[..|v| - 1], k);
    }
  }

  predicate EndsWithSemicolon(s: string) {
    s != [] && s[|s| - 1] == ';'
  }

  /** ";" unless the value, trailing blanks aside, already ends in ';'. */
  function ParamSeparator(value: string): string {
    if EndsWithSemicolon(TrimRight(value)) then "" else ";"
  }

  /** The Content-Type line of a container, with the boundary parameter,
      or None for INV_VALUE (an empty or all-blank value). */
  function CtLine(value: string, boundary: string): Option<string> {
    if TrimRight(value) == [] then None
    else Some("Content-Type: " + value + ParamSeparator(value) + "\n\tboundary=\"" + boundary + "\"\n")
  }

  lemma {:induction false} TrimRightEmpty(v: string)
    ensures TrimRight(v) == [] <==> forall i :: 0 <= i < |v| ==> IsBlank(v[i])
    decreases |v|
  {
    if v != [] && IsBlank(v[|v| - 1]) {
      TrimRightEmpty(v[..|v| - 1]);
      assert forall i :: 0 <= i < |v| - 1 ==> v[..|v| - 1][i] == v[i];
    }
  }

  /** The Content-Type value is rejected exactly when it is all blanks;
      otherwise it is written verbatim and followed by at most one ';',
      so that the value, blanks aside, ends in ';' before the boundary
      parameter. */
  lemma CtLineMeaning(value: string, boundary: string)
    ensures CtLine(value, boundary).None? <==> forall i :: 0 <= i < |value| ==> IsBlank(value[i])
    ensures CtLine(value, boundary).Some? ==>
              var sep := ParamSeparator(value);
              (sep == "" || sep == ";") &&
              EndsWithSemicolon(TrimRight(value + sep)) &&
              (sep == ";" <==> !EndsWithSemicolon(TrimRight(value)))
  {
    TrimRightEmpty(value);
    if ParamSeparator(value) == "" {
      assert value + "" == value;
    } else {
      var t := value + ";";
      assert t[|t| - 1] == ';';
      TrimRightAt(t, |t| - 1);
      assert t[..|t|] == t;
    }
  }

  /** How write_tree writes one header of a part. */
  function HeaderLine(h: Header, isContainer: bool, boundary: string): string {
    if isContainer && h.name == ContentType then
      match CtLine(h.value, boundary)
      case Some(line) => line
      case None => ""
    else
      h.name + ": " + h.value + "\n"
  }

  function HeadersText(hs: seq<Header>, isContainer: bool, boundary: string): string {
    if hs == [] then ""
    else HeadersText(hs[..|hs| - 1], isContainer, boundary) + HeaderLine(hs[|hs| - 1], isContainer, boundary)
  }

  /** An RFC 2046 delimiter line and close-delimiter line. */
  function Delimiter(boundary: string): string {
    "\n--" + boundary + "\n"
  }

  function CloseDelimiter(boundary: string): string {
    "\n--" + boundary + "--\n"
  }

  /** write_tree's log_assert: a chain with a parent has a parent with a
      boundary; a chain without one (the mail) has a single part. */
  predicate ChainReady(parts: seq<Part>, parent: Option<nat>, node: Option<nat>) {
    (node.Some? ==> node.value < |parts|) &&
    (parent.Some? ==> parent.value < |parts| && parts[parent.value].boundary.Some?) &&
    (parent.None? && node.Some? ==> parts[node.value].next.None?)
  }

  /** What precedes a part's children: its headers (with the boundary
      parameter when it is a container), the blank line, and its body. */
  function PreambleText(p: Part): string {
    var b := if p.boundary.Some? then p.boundary.value else "";
    HeadersText(p.headers, p.child.Some?, b) + "\n" + (if p.body.Some? then p.body.value else "")
  }

  /** The text write_tree emits for part N: headers, blank line, body, and
      for a container its child chain between its own delimiters. */
  function PartText(parts: seq<Part>, n: nat): string
    requires WellFormed(parts) && n < |parts|
    decreases |parts| - n, 0
  {
    assert PartOk(parts, n);
    var p := parts[n];
    var b := if p.boundary.Some? then p.boundary.value else "";
    PreambleText(p)
    + (if p.child.Some? then Delimiter(b) + ChainText(parts, Some(n), p.child) + CloseDelimiter(b) else "")
  }

  /** The text write_tree emits for the chain starting at NODE: each part,
      and after each part that has a successor the PARENT's delimiter. */
  function ChainText(parts: seq<Part>, parent: Option<nat>, node: Option<nat>): string
    requires WellFormed(parts) && ChainReady(parts, parent, node)
    decreases if node.Some? then |parts| - node.value else 0, 1
  {
    if node.None? then ""
    else
      var n := node.value;
      assert PartOk(parts, n);
      PartText(parts, n)
      + (if parts[n].next.Some?
         then Delimiter(parts[parent.value].boundary.value) + ChainText(parts, parent, parts[n].next)
         else "")
  }

  // ---- The reference layout ----

  function Join(ss: seq<string>, sep: string): string {
    if |ss| == 0 then ""
    else if |ss| == 1 then ss[0]
    else ss[0] + sep + Join(ss[1..], sep)
  }

  /** A part in the layout of section 5.1.1 of RFC 2046: the body parts
      of a container are joined by its delimiter, opened by the same
      delimiter and closed by its close-delimiter. */
  function Render(m: MimeNode): string
    decreases m
  {
    var b := if m.boundary.Some? then m.boundary.value else "";
    HeadersText(m.headers, m.boundary.Some?, b) + "\n"
    + (if m.body.Some? then m.body.value else "")
    + (if m.boundary.Some?
       then Delimiter(b)
            + Join(seq(|m.children|, i requires 0 <= i < |m.children| => Render(m.children[i])), Delimiter(b))
            + CloseDelimiter(b)
       else "")
  }

  function RenderAll(parts: seq<Part>, cs: seq<nat>): seq<string>
    requires WellFormed(parts) && forall k :: 0 <= k < |cs| ==> cs[k] < |parts|
  {
    seq(|cs|, k requires 0 <= k < |cs| => Render(Abstract(parts, cs[k])))
  }

  lemma {:induction false} PartTextIsRender(parts: seq<Part>, n: nat)
    requires WellFormed(parts) && n < |parts|
    ensures PartText(parts, n) == Render(Abstract(parts, n))
    decreases |parts| - n, 0
  {
    assert PartOk(parts, n);
    var p := parts[n];
    if p.child.Some? {
      var cs := Siblings(parts, p.child);
      var m := Abstract(parts, n);
      assert |m.children| == |cs|;
      ChainTextIsJoin(parts, n, p.child);
      assert seq(|m.children|, i requires 0 <= i < |m.children| => Render(m.children[i])) == RenderAll(parts, cs);
    }
  }

  /** Writing a container's child chain with the parent's delimiter after
      every part but the last is joining the rendered parts by the
      container's delimiter. */
  lemma {:induction false} ChainTextIsJoin(parts: seq<Part>, c: nat, node: Option<nat>)
    requires WellFormed(parts) && c < |parts| && parts[c].boundary.Some?
    requires node.Some? && c < node.value < |parts|
    ensures ChainText(parts, Some(c), node)
            == Join(RenderAll(parts, Siblings(parts, node)), Delimiter(parts[c].boundary.value))
    decreases |parts| - node.value, 1
  {
    var n := node.value;
    assert PartOk(parts, n);
    PartTextIsRender(parts, n);
    RenderAllStep(parts, node);
    if parts[n].next.Some? {
      ChainTextIsJoin(parts, c, parts[n].next);
    }
  }

  /** The rendered chain at NODE is NODE's rendering followed by the
      rendered chain at its successor. */
  lemma RenderAllStep(parts: seq<Part>, node: Option<nat>)
    requires WellFormed(parts) && node.Some? && node.value < |parts|
    ensures var rs := RenderAll(parts, Siblings(parts, node));
            var n := node.value;
            PartOk(parts, n) && |rs| >= 1 && rs[0] == Render(Abstract(parts, n)) &&
            (parts[n].next.None? ==> |rs| == 1) &&
            (parts[n].next.Some? ==> rs[1..] == RenderAll(parts, Siblings(parts, parts[n].next)))
  {
    var n := node.value;
    assert PartOk(parts, n);
    var cs := Siblings(parts, node);
    if parts[n].next.Some? {
      assert cs[1..] == Siblings(parts, parts[n].next);
      RenderAllTail(parts, cs);
    }
  }

  lemma RenderAllTail(parts: seq<Part>, cs: seq<nat>)
    requires WellFormed(parts) && |cs| >= 1 && forall k :: 0 <= k < |cs| ==> cs[k] < |parts|
    ensures RenderAll(parts, cs)[1..] == RenderAll(parts, cs[1..])
  {
    var rs := RenderAll(parts, cs);
    var ts := RenderAll(parts, cs[1..]);
    assert |rs[1..]| == |ts|;
    forall k | 0 <= k < |ts|
      ensures rs[1..][k] == ts[k]
    {
      assert rs[1..][k] == rs[k + 1];
    }
  }

  /** write_tree on the mail emits the whole tree in the RFC 2046 layout. */
  lemma TreeTextIsMultipartLayout(parts: seq<Part>)
    requires WellFormed(parts) && |parts| > 0 && parts[0].next.None?
    ensures ChainText(parts, None, Some(0)) == Render(Abstract(parts, 0))
  {
    PartTextIsRender(parts, 0);
  }
}
