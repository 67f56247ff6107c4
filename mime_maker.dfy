/** The mime_maker context: the MIME tree, the cursor into it, the
    boundary counter and suffix, and the builder and writer operations. */
module Maker {
  import opened MimeTypes
  import opened HeaderNames
  import opened Boundaries
  import opened PartTree
  import opened Serializer

  const DefaultMediatype := "multipart/mixed"

  /** ensure_part's effect on the arena: an empty context gets its mail. */
  function Started(parts: seq<Part>): (r: seq<Part>)
    ensures |r| > 0
  {
    if parts == [] then [EmptyPart] else parts
  }

  /** Every container's boundary was made from its own counter value and
      the context's single suffix; no two containers share a counter value. */
  ghost predicate Numbered(parts: seq<Part>, serial: seq<nat>, suffix: Option<string>, counter: nat) {
    |serial| == |parts| &&
    (suffix.None? ==> counter == 0) &&
    (forall i :: 0 <= i < |parts| && parts[i].boundary.Some? ==>
       suffix.Some? && 1 <= serial[i] <= counter &&
       parts[i].boundary.value == BoundaryString(serial[i], suffix.value)) &&
    (forall i, j :: 0 <= i < j < |parts| && parts[i].boundary.Some? && parts[j].boundary.Some? ==>
       serial[i] != serial[j])
  }

  /** No two containers of one context share a boundary string. */
  lemma DistinctBoundaries(parts: seq<Part>, serial: seq<nat>, suffix: Option<string>, counter: nat)
    requires Numbered(parts, serial, suffix, counter)
    ensures forall i, j :: 0 <= i < j < |parts| && parts[i].boundary.Some? && parts[j].boundary.Some? ==>
              parts[i].boundary.value != parts[j].boundary.value
  {
    forall i, j | 0 <= i < j < |parts| && parts[i].boundary.Some? && parts[j].boundary.Some?
      ensures parts[i].boundary.value != parts[j].boundary.value
    {
      BoundaryInjective(serial[i], serial[j], suffix.value);
    }
  }

  /** Whenever a part below the mail carries a Content-Type header, the
      mail announces MIME-Version. */
  ghost predicate MimeAnnounced(parts: seq<Part>) {
    forall i :: 0 < i < |parts| && HasHeader(parts[i].headers, ContentType) ==>
      HasHeader(parts[0].headers, MimeVersion)
  }

  lemma HasHeaderAppend(hs: seq<Header>, h: Header, name: string)
    ensures HasHeader(hs + [h], name) <==> HasHeader(hs, name) || h.name == name
  {
    if HasHeader(hs, name) {
      var i :| 0 <= i < |hs| && hs[i].name == name;
      assert (hs + [h])[i].name == name;
    }
    if h.name == name {
      assert (hs + [h])[|hs|].name == name;
    }
    if HasHeader(hs + [h], name) && h.name != name {
      var i :| 0 <= i < |hs + [h]| && (hs + [h])[i].name == name;
      assert hs[i].name == name;
    }
  }

  /** The root after add_missing_headers: MIME-Version and then Date added
      when missing (Date only when the timestamp could be formatted). */
  function CompletedRoot(parts: seq<Part>, date: Option<string>): seq<Part>
    requires parts != []
  {
    var p1 := if HasHeader(parts[0].headers, MimeVersion) then parts
              else WithHeader(parts, 0, Header(MimeVersion, "1.0"));
    if HasHeader(p1[0].headers, Date) || date.None? then p1
    else WithHeader(p1, 0, Header(Date, date.value))
  }

  /** The status add_missing_headers is meant to return: NO_DATA without
      a mail, a system error when Date is missing and the timestamp could
      not be formatted, and success otherwise. */
  function MissingHeadersStatus(hasMail: bool, haveDate: bool, dateFormatted: bool): (s: Status)
    ensures s == Err(NoData) <==> !hasMail
    ensures s.Err? <==> !hasMail || (!haveDate && !dateFormatted)
  {
    if !hasMail then Err(NoData)
    else if !haveDate && !dateFormatted then Err(SysError)
    else Ok
  }

  /** add_missing_headers as written: `err` is assigned only on the paths
      that add a header, so with both headers already present it returns
      whatever the uninitialised variable holds (INDETERMINATE). */
  function MissingHeadersStatusAsWritten(hasMail: bool, haveMimeVersion: bool, haveDate: bool,
                                         dateFormatted: bool, indeterminate: Status): (s: Status)
    ensures !(hasMail && haveMimeVersion && haveDate) ==>
              s == MissingHeadersStatus(hasMail, haveDate, dateFormatted)
    ensures hasMail && haveMimeVersion && haveDate ==> s == indeterminate
  {
    if !hasMail then Err(NoData)
    else if !haveDate then (if dateFormatted then Ok else Err(SysError))
    else if !haveMimeVersion then Ok
    else indeterminate
  }

  /** With both headers present, the code as written can fail a complete
      message, where the intended status is success. */
  lemma UninitialisedStatusEscapes()
    ensures MissingHeadersStatusAsWritten(true, true, true, true, Err(SysError)) == Err(SysError)
    ensures MissingHeadersStatus(true, true, true) == Ok
  {
  }

  /** The invariant of a context: the arena is a tree whose parents are
      known, its boundaries are numbered by the counter, a nested
      Content-Type is announced by MIME-Version, and the cursor is a part
      that has neither a next sibling nor a child yet. */
  ghost predicate Consistent(parts: seq<Part>, parentOf: seq<nat>, serial: seq<nat>,
                             suffix: Option<string>, counter: nat, current: nat)
  {
    IsTree(parts) && ParentsKnown(parts, parentOf) &&
    Numbered(parts, serial, suffix, counter) && MimeAnnounced(parts) &&
    (parts == [] ==> current == 0) &&
    (parts != [] ==>
       current < |parts| && parts[current].next.None? && parts[current].child.None? &&
       parts[0].next.None?)
  }

  /** The new container takes the next counter value; every other part
      keeps its own. */
  lemma ContainerKeepsNumbered(parts: seq<Part>, serial: seq<nat>, oldSuffix: Option<string>,
                               oldCounter: nat, suffix: string, c: nat, mediatype: string)
    requires Numbered(parts, serial, oldSuffix, oldCounter)
    requires oldSuffix.Some? ==> suffix == oldSuffix.value
    requires c < |parts|
    ensures Numbered(WithContainer(parts, c, mediatype, BoundaryString(oldCounter + 1, suffix)),
                     serial[c := oldCounter + 1] + [0], Some(suffix), oldCounter + 1)
  {
    var q := WithContainer(parts, c, mediatype, BoundaryString(oldCounter + 1, suffix));
    var sr := serial[c := oldCounter + 1] + [0];
    assert forall i :: 0 <= i < |parts| && i != c ==> q[i] == parts[i] && sr[i] == serial[i];
    forall i, j | 0 <= i < j < |q| && q[i].boundary.Some? && q[j].boundary.Some?
      ensures sr[i] != sr[j]
    {
      if i != c && j != c {
        assert serial[i] != serial[j];
      }
    }
  }

  /** Opening a container adds no header. */
  lemma ContainerKeepsAnnounced(parts: seq<Part>, c: nat, mediatype: string, boundary: string)
    requires MimeAnnounced(parts) && c < |parts|
    ensures MimeAnnounced(WithContainer(parts, c, mediatype, boundary))
  {
    var q := WithContainer(parts, c, mediatype, boundary);
    assert forall i :: 0 <= i < |parts| ==> q[i].headers == parts[i].headers;
    assert q[|parts|].headers == [];
  }

  /** Opening a container at C with the next counter value keeps the
      invariant of the context, with the cursor on the new child. */
  lemma ContainerKeepsInvariants(parts: seq<Part>, parentOf: seq<nat>, serial: seq<nat>,
                                 oldSuffix: Option<string>, oldCounter: nat, suffix: string,
                                 c: nat, mediatype: string)
    requires IsTree(parts) && ParentsKnown(parts, parentOf) && MimeAnnounced(parts)
    requires Numbered(parts, serial, oldSuffix, oldCounter)
    requires oldSuffix.Some? ==> suffix == oldSuffix.value
    requires c < |parts| && parts[c].child.None? && parts[c].body.None?
    requires parts[0].next.None?
    ensures Consistent(WithContainer(parts, c, mediatype, BoundaryString(oldCounter + 1, suffix)),
                       parentOf + [c], serial[c := oldCounter + 1] + [0], Some(suffix), oldCounter + 1, |parts|)
  {
    var b := BoundaryString(oldCounter + 1, suffix);
    ContainerKeepsTree(parts, parentOf, c, mediatype, b);
    ContainerKeepsNumbered(parts, serial, oldSuffix, oldCounter, suffix, c, mediatype);
    ContainerKeepsAnnounced(parts, c, mediatype, b);
  }

  class MimeMaker {
    var verbose: bool
    var debug: bool
    /** The MIME tree; parts[0] is the mail when the arena is not empty. */
    var parts: seq<Part>
    /** current_part, an index into parts. */
    var current: nat
    var boundaryCounter: nat
    var boundarySuffix: Option<string>
    /** What has been written to the output stream during make. */
    var outfp: string
    /** The container of each part (ghost: the C code searches for it). */
    ghost var parentOf: seq<nat>
    /** The counter value each container's boundary was made from. */
    ghost var serial: seq<nat>

    ghost predicate Valid()
      reads this
    {
      Consistent(parts, parentOf, serial, boundarySuffix, boundaryCounter, current) && outfp == ""
    }

    /** mime_maker_new: a zeroed context without a tree. */
    constructor ()
      ensures Valid()
      ensures parts == [] && current == 0 && boundaryCounter == 0 && boundarySuffix.None?
      ensures !verbose && !debug && outfp == ""
    {
      verbose, debug := false, false;
      parts, current := [], 0;
      boundaryCounter, boundarySuffix := 0, None;
      outfp := "";
      parentOf, serial := [], [];
    }

    /** mime_maker_set_verbose: level 0 clears both flags; any other level
        sets verbose, and a level above 10 also sets debug. */
    method SetVerbose(level: int)
      modifies this`verbose, this`debug
      ensures level == 0 ==> !verbose && !debug
      ensures level != 0 ==> verbose && debug == (level > 10 || old(debug))
    {
      if level == 0 {
        verbose := false;
        debug := false;
      } else {
        verbose := true;
        if level > 10 {
          debug := true;
        }
      }
    }

    /** ensure_part: create the mail and put the cursor on it on first use. */
    method EnsurePart()
      requires Valid()
      modifies this`parts, this`current, this`parentOf, this`serial
      ensures Valid()
      ensures parts == Started(old(parts)) && current == old(current)
    {
      if parts == [] {
        parts := [EmptyPart];
        current := 0;
        parentOf := [0];
        serial := [0];
        assert PartOk(parts, 0);
      }
    }

    /** add_header: append the canonicalised header to part P. */
    method AddHeaderTo(p: nat, name: string, value: string)
      requires Valid() && p < |parts|
      requires p > 0 && Capitalize(name) == ContentType ==> HasHeader(parts[0].headers, MimeVersion)
      modifies this`parts
      ensures Valid()
      ensures parts == WithHeader(old(parts), p, Header(Capitalize(name), value))
    {
      var buf := new char[|name|](i requires 0 <= i < |name| => name[i]);
      assert buf[..] == name;
      CapitalizeHeaderName(buf);
      var h := Header(buf[..], value);
      ghost var before := parts;
      assert PartOk(before, p);
      parts := WithHeader(parts, p, h);
      ContentChangeKeepsTree(before, parts, parentOf, p);
      HasHeaderAppend(before[p].headers, h, ContentType);
      HasHeaderAppend(before[p].headers, h, MimeVersion);
      assert forall i :: 0 <= i < |parts| ==> parts[i].boundary == before[i].boundary;
    }

    /** mime_maker_add_header.  NAME and VALUE are NULL together or not at
        all: a NULL name with a value is passed to ascii_strcasecmp, and a
        name with a NULL value to xtrystrdup. */
    method AddHeader(name: Option<string>, value: Option<string>) returns (err: Status)
      requires Valid()
      requires name.Some? <==> value.Some?
      modifies this`parts, this`current, this`parentOf, this`serial
      ensures Valid()
      ensures var p0 := Started(old(parts));
              err.Err? <==> p0[old(current)].body.Some? && old(current) == 0
      ensures err.Err? ==> err == Err(Conflict) && parts == old(parts) && current == old(current)
      ensures err.Ok? ==>
                var p0 := Started(old(parts));
                var c0 := old(current);
                var sibling := p0[c0].body.Some?;
                var p1 := if sibling then WithSibling(p0, c0) else p0;
                var c1 := if sibling then |p0| else c0;
                current == c1 && c1 < |p1| &&
                parts == (if name.None? then p1
                          else
                            var p2 := if EqualsIgnoreCase(name.value, ContentType) && !HasHeader(p1[0].headers, MimeVersion)
                                      then WithHeader(p1, 0, Header(MimeVersion, "1.0")) else p1;
                            WithHeader(p2, c1, Header(Capitalize(name.value), value.value)))
    {
      err := SelectPart();
      if err.Err? {
        return err;
      }
      if name.None? && value.None? {
        return Ok;
      }
      var part := current;
      if EqualsIgnoreCase(name.value, ContentType) {
        AnnounceMime();
      }
      CanonicalContentType(name.value);
      AddHeaderTo(part, name.value, value.value);
      return Ok;
    }

    /** The first half of mime_maker_add_header: the part that gets the
        header is the cursor, or a new sibling after it when it already
        has a body; a mail with a body cannot take another part. */
    method SelectPart() returns (err: Status)
      requires Valid()
      modifies this`parts, this`current, this`parentOf, this`serial
      ensures Valid() && parts != []
      ensures var p0 := Started(old(parts));
              err.Err? <==> p0[old(current)].body.Some? && old(current) == 0
      ensures err.Err? ==> err == Err(Conflict) && parts == old(parts) && current == old(current)
      ensures err.Ok? ==>
                var p0 := Started(old(parts));
                var c0 := old(current);
                var sibling := p0[c0].body.Some?;
                current == (if sibling then |p0| else c0) &&
                parts == (if sibling then WithSibling(p0, c0) else p0)
    {
      EnsurePart();
      var parent := FindParent(parts, 0, current);
      ParentFoundIffNotRoot(parts, parentOf, current);
      if parts[current].body.Some? && parent.None? {
        return Err(Conflict);
      }
      if parts[current].body.Some? {
        LinkSibling();
      }
      return Ok;
    }

    /** The mail gets "MIME-Version: 1.0" unless it has that header. */
    method AnnounceMime()
      requires Valid() && parts != []
      modifies this`parts
      ensures Valid()
      ensures HasHeader(parts[0].headers, MimeVersion)
      ensures parts == if HasHeader(old(parts)[0].headers, MimeVersion) then old(parts)
                       else WithHeader(old(parts), 0, Header(MimeVersion, "1.0"))
    {
      var has := HaveHeader(parts[0].headers, MimeVersion);
      if !has {
        ghost var rootHeaders := parts[0].headers;
        InjectedNamesCanonical();
        AddHeaderTo(0, MimeVersion, "1.0");
        HasHeaderAppend(rootHeaders, Header(MimeVersion, "1.0"), MimeVersion);
      }
    }

    /** The step of mime_maker_add_header that starts a new part in the
        current container: a fresh empty part becomes the cursor's `next`
        and the cursor moves to it. */
    method LinkSibling()
      requires Valid() && 0 < current < |parts|
      modifies this`parts, this`current, this`parentOf, this`serial
      ensures Valid()
      ensures parts == WithSibling(old(parts), old(current)) && current == |old(parts)|
    {
      ghost var before := parts;
      SiblingKeepsTree(parts, parentOf, current);
      parentOf := parentOf + [parentOf[current]];
      serial := serial + [0];
      var sibling := |parts|;
      parts := WithSibling(parts, current);
      current := sibling;
      assert forall i :: 0 <= i < |before| ==> parts[i].boundary == before[i].boundary && parts[i].headers == before[i].headers;
      assert PartOk(parts, current);
    }

    /** add_body: store DATA as the body of the current part. */
    method AddBodyData(data: string) returns (err: Status)
      requires Valid()
      modifies this`parts, this`current, this`parentOf, this`serial
      ensures Valid()
      ensures current == old(current)
      ensures var p0 := Started(old(parts));
              if p0[current].body.Some? then err == Err(Conflict) && parts == p0
              else err == Ok && parts == p0[current := p0[current].(body := Some(data))]
    {
      EnsurePart();
      var parent := FindParent(parts, 0, current);
      var part := current;
      if parts[part].body.Some? {
        return Err(Conflict);
      }
      ghost var before := parts;
      parts := parts[part := parts[part].(body := Some(data))];
      ContentChangeKeepsTree(before, parts, parentOf, part);
      assert forall i :: 0 <= i < |parts| ==> parts[i].boundary == before[i].boundary && parts[i].headers == before[i].headers;
      return Ok;
    }

    /** mime_maker_add_body: the string becomes the body. */
    method AddBody(s: string) returns (err: Status)
      requires Valid()
      modifies this`parts, this`current, this`parentOf, this`serial
      ensures Valid()
      ensures current == old(current)
      ensures var p0 := Started(old(parts));
              if p0[current].body.Some? then err == Err(Conflict) && parts == p0
              else err == Ok && parts == p0[current := p0[current].(body := Some(s))]
    {
      err := AddBodyData(s);
    }

    /** mime_maker_add_stream: the drained contents of the stream become
        the body. */
    method AddStream(drained: string) returns (err: Status)
      requires Valid()
      modifies this`parts, this`current, this`parentOf, this`serial
      ensures Valid()
      ensures current == old(current)
      ensures var p0 := Started(old(parts));
              if p0[current].body.Some? then err == Err(Conflict) && parts == p0
              else err == Ok && parts == p0[current := p0[current].(body := Some(drained))]
    {
      err := AddBodyData(drained);
    }

    /** generate_boundary.  NONCE is the encoded 12-byte nonce that is
        drawn when the context has no suffix yet (None when encoding it
        failed). */
    method GenerateBoundary(nonce: Option<string>) returns (b: Option<string>)
      modifies this`boundaryCounter, this`boundarySuffix
      ensures boundarySuffix == (if old(boundarySuffix).Some? then old(boundarySuffix) else nonce)
      ensures b.None? <==> boundarySuffix.None?
      ensures b.None? ==> boundaryCounter == old(boundaryCounter)
      ensures b.Some? ==> boundaryCounter == old(boundaryCounter) + 1 &&
                          b.value == BoundaryString(boundaryCounter, boundarySuffix.value)
    {
      if boundarySuffix.None? {
        boundarySuffix := nonce;
        if boundarySuffix.None? {
          return None;
        }
      }
      boundaryCounter := boundaryCounter + 1;
      b := Some(BoundaryString(boundaryCounter, boundarySuffix.value));
    }

    /** mime_maker_add_container: turn the current part into a container
        and move the cursor to its new first child. */
    method AddContainer(mediatype: Option<string>, nonce: Option<string>) returns (err: Status)
      requires Valid()
      modifies this`parts, this`current, this`parentOf, this`serial, this`boundaryCounter, this`boundarySuffix
      ensures Valid()
      ensures var p0 := Started(old(parts));
              var c0 := old(current);
              var mt := if mediatype.Some? then mediatype.value else DefaultMediatype;
              var p1 := if HasHeader(p0[0].headers, ContentType) then p0
                        else WithHeader(p0, 0, Header(ContentType, mt));
              if p0[c0].body.Some? then
                err == Err(Conflict) && parts == p0 && current == c0 &&
                boundaryCounter == old(boundaryCounter) && boundarySuffix == old(boundarySuffix)
              else if old(boundarySuffix).None? && nonce.None? then
                err == Err(SysError) && parts == p1 && current == c0 &&
                boundaryCounter == old(boundaryCounter) && boundarySuffix.None?
              else
                err == Ok && current == |p0| &&
                boundarySuffix == (if old(boundarySuffix).Some? then old(boundarySuffix) else nonce) &&
                boundaryCounter == old(boundaryCounter) + 1 &&
                parts == WithContainer(p1, c0, mt, BoundaryString(boundaryCounter, boundarySuffix.value))
    {
      var mt := if mediatype.Some? then mediatype.value else DefaultMediatype;
      EnsurePart();
      var part := current;
      assert PartOk(parts, part);
      if parts[part].body.Some? || parts[part].child.Some? || parts[part].mediatype.Some? || parts[part].boundary.Some? {
        return Err(Conflict);
      }
      AnnounceContentType(mt);
      err := OpenContainer(mt, nonce);
    }

    /** The mail gets a Content-Type header with MT unless it has one. */
    method AnnounceContentType(mt: string)
      requires Valid() && parts != []
      modifies this`parts
      ensures Valid()
      ensures parts == if HasHeader(old(parts)[0].headers, ContentType) then old(parts)
                       else WithHeader(old(parts), 0, Header(ContentType, mt))
    {
      var has := HaveHeader(parts[0].headers, ContentType);
      if !has {
        InjectedNamesCanonical();
        AddHeaderTo(0, ContentType, mt);
      }
    }

    /** The second half of mime_maker_add_container: link a new first child
        to the current part, draw a boundary for it and move the cursor
        there, or undo the link when no boundary can be drawn. */
    method OpenContainer(mt: string, nonce: Option<string>) returns (err: Status)
      requires Valid() && parts != [] && parts[current].body.None?
      modifies this`parts, this`current, this`parentOf, this`serial, this`boundaryCounter, this`boundarySuffix
      ensures Valid()
      ensures boundarySuffix == (if old(boundarySuffix).Some? then old(boundarySuffix) else nonce)
      ensures if boundarySuffix.None? then
                err == Err(SysError) && parts == old(parts) && current == old(current) &&
                boundaryCounter == old(boundaryCounter)
              else
                err == Ok && current == |old(parts)| &&
                boundaryCounter == old(boundaryCounter) + 1 &&
                parts == WithContainer(old(parts), old(current), mt, BoundaryString(boundaryCounter, boundarySuffix.value))
    {
      var part := current;
      ghost var before := parts;
      assert PartOk(before, part);
      var child := |parts|;
      parts := parts[part := parts[part].(child := Some(child), mediatype := Some(mt))] + [EmptyPart];
      ghost var oldCounter := boundaryCounter;
      ghost var oldSuffix := boundarySuffix;
      var boundary := GenerateBoundary(nonce);
      if boundary.None? {
        parts := parts[..child];
        parts := parts[part := parts[part].(child := None, mediatype := None)];
        assert parts[part] == before[part];
        assert parts == before;
        return Err(SysError);
      }
      parts := parts[part := parts[part].(boundary := boundary)];
      assert parts == WithContainer(before, part, mt, boundary.value);
      ContainerKeepsInvariants(before, parentOf, serial, oldSuffix, oldCounter, boundarySuffix.value, part, mt);
      parentOf := parentOf + [part];
      serial := serial[part := boundaryCounter] + [0];
      current := child;
      return Ok;
    }

    /** add_missing_headers, with the status it evidently intends. */
    method AddMissingHeaders(date: Option<string>) returns (err: Status)
      requires Valid()
      modifies this`parts
      ensures Valid()
      ensures old(parts) == [] ==> parts == old(parts)
      ensures old(parts) != [] ==> parts == CompletedRoot(old(parts), date)
      ensures err == MissingHeadersStatus(old(parts) != [],
                                          old(parts) != [] && HasHeader(old(parts)[0].headers, Date),
                                          date.Some?)
      ensures err.Ok? ==> HasHeader(parts[0].headers, MimeVersion) && HasHeader(parts[0].headers, Date)
    {
      if parts == [] {
        return Err(NoData);
      }
      InjectedNamesCanonical();
      var hasVersion := HaveHeader(parts[0].headers, MimeVersion);
      if !hasVersion {
        AddHeaderTo(0, MimeVersion, "1.0");
        HasHeaderAppend(old(parts)[0].headers, Header(MimeVersion, "1.0"), MimeVersion);
        HasHeaderAppend(old(parts)[0].headers, Header(MimeVersion, "1.0"), Date);
      }
      var hasDate := HaveHeader(parts[0].headers, Date);
      if !hasDate {
        if date.None? {
          return Err(SysError);
        }
        ghost var p1 := parts;
        AddHeaderTo(0, Date, date.value);
        HasHeaderAppend(p1[0].headers, Header(Date, date.value), MimeVersion);
        HasHeaderAppend(p1[0].headers, Header(Date, date.value), Date);
      }
      return Ok;
    }

    /** write_ct_with_boundary: the Content-Type line of a container, or
        INV_VALUE for an empty or all-blank value. */
    method WriteCtWithBoundary(value: string, boundary: string) returns (err: Status)
      modifies this`outfp
      ensures CtLine(value, boundary).None? ==> err == Err(InvValue) && outfp == old(outfp)
      ensures CtLine(value, boundary).Some? ==> err == Ok && outfp == old(outfp) + CtLine(value, boundary).value
    {
      if |value| == 0 {
        return Err(InvValue);
      }
      var k := LastNonBlank(value);
      TrimRightAt(value, k);
      if k < 0 {
        return Err(InvValue);
      }
      outfp := outfp + ("Content-Type: " + value + (if value[k] == ';' then "" else ";")
                        + "\n\tboundary=\"" + boundary + "\"\n");
      return Ok;
    }

    /** The header loop of write_tree.  A container's Content-Type gets the
        boundary parameter; an error from write_ct_with_boundary is
        ignored, so an invalid Content-Type line is simply not written. */
    method WriteHeaders(headers: seq<Header>, isContainer: bool, boundary: string)
      modifies this`outfp
      ensures outfp == old(outfp) + HeadersText(headers, isContainer, boundary)
    {
      var i := 0;
      while i < |headers|
        invariant 0 <= i <= |headers|
        invariant outfp == old(outfp) + HeadersText(headers[..i], isContainer, boundary)
      {
        ghost var prev := outfp;
        WriteHeader(headers[i], isContainer, boundary);
        assert headers[..i + 1][..i] == headers[..i];
        assert HeadersText(headers[..i + 1], isContainer, boundary)
            == HeadersText(headers[..i], isContainer, boundary) + HeaderLine(headers[i], isContainer, boundary);
        i := i + 1;
      }
      assert headers[..i] == headers;
    }

    /** One header of the loop in write_tree. */
    method WriteHeader(h: Header, isContainer: bool, boundary: string)
      modifies this`outfp
      ensures outfp == old(outfp) + HeaderLine(h, isContainer, boundary)
    {
      if isContainer && h.name == ContentType {
        var _ := WriteCtWithBoundary(h.value, boundary);
      } else {
        outfp := outfp + (h.name + ": " + h.value + "\n");
      }
    }

    /** The body of write_tree's loop for part P: its headers, the blank
        line, its body, and for a container the child chain between the
        container's own delimiters. */
    method WritePart(p: nat)
      requires WellFormed(parts) && p < |parts|
      modifies this`outfp
      ensures outfp == old(outfp) + PartText(parts, p)
      decreases |parts| - p, 1
    {
      assert PartOk(parts, p);
      var b := if parts[p].boundary.Some? then parts[p].boundary.value else "";
      ghost var childText := if parts[p].child.Some? then Delimiter(b) + ChainText(parts, Some(p), parts[p].child) + CloseDelimiter(b) else "";
      ghost var preamble := PreambleText(parts[p]);
      WritePreamble(parts[p]);
      ghost var mid := outfp;
      if parts[p].child.Some? {
        WriteChildren(p);
      }
      assert outfp == mid + childText;
      assert PartText(parts, p) == preamble + childText;
      assert old(outfp) + preamble + childText == old(outfp) + (preamble + childText);
    }

    /** The headers, the blank line and the body of PART. */
    method WritePreamble(part: Part)
      modifies this`outfp
      ensures outfp == old(outfp) + PreambleText(part)
    {
      var b := if part.boundary.Some? then part.boundary.value else "";
      WriteHeaders(part.headers, part.child.Some?, b);
      outfp := outfp + "\n";
      if part.body.Some? {
        outfp := outfp + part.body.value;
      }
    }

    /** The children of container P between its delimiter and its
        close-delimiter. */
    method WriteChildren(p: nat)
      requires WellFormed(parts) && p < |parts| && ChainReady(parts, Some(p), parts[p].child)
      modifies this`outfp
      ensures var b := if parts[p].boundary.Some? then parts[p].boundary.value else "";
              outfp == old(outfp) + (Delimiter(b) + ChainText(parts, Some(p), parts[p].child) + CloseDelimiter(b))
      decreases |parts| - p, 0
    {
      assert PartOk(parts, p);
      var b := if parts[p].boundary.Some? then parts[p].boundary.value else "";
      outfp := outfp + Delimiter(b);
      WriteTree(Some(p), parts[p].child);
      outfp := outfp + CloseDelimiter(b);
    }

    /** write_tree: write the chain of parts starting at NODE, whose
        container is PARENT; after every part that has a successor comes
        the PARENT's delimiter. */
    method WriteTree(parent: Option<nat>, node: Option<nat>)
      requires WellFormed(parts) && ChainReady(parts, parent, node)
      modifies this`outfp
      ensures outfp == old(outfp) + ChainText(parts, parent, node)
      decreases if node.Some? then |parts| - node.value else 0, 2
    {
      var n := node;
      while n.Some?
        invariant ChainReady(parts, parent, n)
        invariant n.Some? && node.Some? ==> node.value <= n.value
        invariant node.None? ==> n.None?
        invariant outfp + ChainText(parts, parent, n) == old(outfp) + ChainText(parts, parent, node)
        decreases if n.Some? then |parts| - n.value else 0
      {
        var p := n.value;
        assert PartOk(parts, p);
        ghost var start := outfp;
        WritePart(p);
        var next := parts[p].next;
        if next.Some? {
          outfp := outfp + Delimiter(parts[parent.value].boundary.value);
        }
        ghost var rest := ChainText(parts, parent, next);
        if next.Some? {
          assert start + PartText(parts, p) + Delimiter(parts[parent.value].boundary.value) + rest
              == start + (PartText(parts, p) + (Delimiter(parts[parent.value].boundary.value) + rest));
        } else {
          assert rest == [];
        }
        n := next;
      }
    }

    /** mime_maker_make: complete the mail's headers, then write the tree.
        DATE is the formatted current time (None when formatting failed). */
    method Make(date: Option<string>) returns (err: Status, output: string)
      requires Valid()
      modifies this`parts, this`outfp
      ensures Valid()
      ensures old(parts) == [] ==> parts == old(parts)
      ensures old(parts) != [] ==> parts == CompletedRoot(old(parts), date)
      ensures err == MissingHeadersStatus(old(parts) != [],
                                          old(parts) != [] && HasHeader(old(parts)[0].headers, Date),
                                          date.Some?)
      ensures err.Err? ==> output == ""
      ensures err.Ok? ==> HasHeader(parts[0].headers, MimeVersion) && HasHeader(parts[0].headers, Date)
      ensures err.Ok? ==> output == Render(Abstract(parts, 0))
    {
      err := AddMissingHeaders(date);
      if err.Err? {
        return err, "";
      }
      output := WriteMail();
    }

    /** The write_tree call of mime_maker_make, from the mail down; the
        stream is captured and handed back as OUTPUT. */
    method WriteMail() returns (output: string)
      requires Valid() && parts != []
      modifies this`outfp
      ensures outfp == old(outfp)
      ensures output == Render(Abstract(parts, 0))
    {
      outfp := "";
      WriteTree(None, Some(0));
      TreeTextIsMultipartLayout(parts);
      output := outfp;
      outfp := "";
    }
  }
}
