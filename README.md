# mime-maker: a verified model of the MIME tree builder and serialiser

This project models `tools/mime-maker.c` from GnuPG's tools. That file
builds a MIME mail in memory and writes it out.

A `mime_maker` context owns three things:
- a tree of parts, where each part has an ordered header list, an optional
  body, an optional child container and a `next` sibling;
- a cursor (`current_part`);
- a boundary counter and a boundary suffix.

The builder calls grow the tree step by step:
- `mime_maker_add_header` adds a header, or opens a new sibling part when
  the current part already has a body;
- `mime_maker_add_body` and `mime_maker_add_stream` store a body;
- `mime_maker_add_container` turns the current part into a multipart
  container and moves the cursor to its first child.

`mime_maker_make` completes the mail's headers (`MIME-Version`, `Date`)
and writes the tree in the multipart layout of section 5.1.1 of RFC 2046.

The model is a Dafny class, `Maker.MimeMaker`, over an arena:
- `parts: seq<Part>` holds the parts, and `child`/`next` are arena indices;
- index 0 is the mail, and `current` is the cursor;
- links always point to a higher index, so every walk terminates and no
  cycle can form;
- ghost fields record each part's container (`parentOf`) and the counter
  value of each boundary (`serial`).

The class invariant `Valid` says:
- the arena is a tree with a single owner per part;
- a part has a body or a child, never both;
- mediatype and boundary are set exactly when the child is;
- every boundary was made from its own counter value and the context's
  one suffix;
- a nested `Content-Type` implies that the mail has `MIME-Version`;
- the cursor has no `next` and no child yet.

The writer appends to `outfp: string`. The main theorem,
`Serializer.TreeTextIsMultipartLayout`, proves that what `write_tree`
emits equals an independent rendering of the abstract tree. In that
rendering, each container's parts are joined by its delimiter line,
opened by the same line and closed by its close-delimiter.

Modules:
- `MimeTypes` (`mime_types.dfy`): parts, headers, status codes.
- `HeaderNames` (`header_names.dfy`): capitalisation and lookup.
- `Boundaries` (`boundaries.dfy`): the boundary string and its injectivity.
- `PartTree` (`part_tree.dfy`): the arena, `find_parent`, and how updates
  keep the tree shape.
- `Serializer` (`serializer.dfy`): the text `write_tree` emits and the
  RFC 2046 layout.
- `Maker` (`mime_maker.dfy`): the context class.

Some behaviour of the code is easy to misread; the model follows the code:
- A second `mime_maker_add_container` is not a conflict. After the first
  call the cursor is on the new, empty child, so the second call nests a
  container inside it. A part still becomes a container at most once.
- `write_ct_with_boundary` prints the Content-Type value untrimmed. It
  adds `;` only when the last non-blank character is not `;`.
- The boundary nonce is 12 bytes.
- The comment above `mime_maker_add_container` (tools/mime-maker.c:434-438)
  says the Content-Type goes to "the parent part". The code adds it to the
  mail (the root), and only when the mail has none.
- The comment above `mime_maker_add_header` (tools/mime-maker.c:318-319)
  says an LF in the value is handled automatically. `write_tree` writes the
  value verbatim (tools/mime-maker.c:541), and so does the model.

Outside inputs are parameters:
- `nonce: Option<string>` is the encoded random suffix, and `None` means
  encoding failed;
- `date: Option<string>` is the formatted timestamp, and `None` means
  formatting failed;
- `drained: string` is what `mime_maker_add_stream` reads from the stream.

## Model

| member | source | states |
|---|---|---|
| HeaderNames.Capitalize | tools/mime-maker.c:247-273 | The canonical name has the same length and equals the input up to ASCII case. Any-case "mime-version" becomes exactly "MIME-Version". |
| HeaderNames.CapitalizeHeaderName | tools/mime-maker.c:247-273 | The in-place loop leaves the buffer equal to `Capitalize` of its old contents. The character at the start and each character right after '-' is upper-cased if it is a letter, every other letter is lower-cased, nothing changes from the first ':' on, and any-case "mime-version" becomes "MIME-Version". |
| HeaderNames.CapitalizeIdempotent | tools/mime-maker.c:247-273 | Capitalising a capitalised name changes nothing. |
| HeaderNames.InjectedNamesCanonical | tools/mime-maker.c:364-595 | "MIME-Version" (injected at 366-367 and 583-584), "Content-Type" (459-461) and "Date" (589-595), the names the maker adds itself, are already canonical. |
| HeaderNames.CanonicalContentType | tools/mime-maker.c:364-365 | A name canonicalises to "Content-Type" exactly when it equals "Content-Type" ignoring case. So the case-insensitive test and the stored canonical name agree, in both directions. |
| HeaderNames.HaveHeader | tools/mime-maker.c:280-288 | The scan returns true exactly when some stored header name equals the given name character for character. |
| Boundaries.TwoDigitsRoundTrip | tools/mime-maker.c:217-218 | The "%02d" text of the counter is all digits, at least two long, and reads back as the counter. |
| Boundaries.BoundaryString | tools/mime-maker.c:199-218 | Every boundary begins with "=-=". |
| Boundaries.BoundaryCounterRoundTrip | tools/mime-maker.c:217-218 | The counter can be read back from the boundary text, whatever the suffix. |
| Boundaries.BoundaryInjective | tools/mime-maker.c:204-219 | With one suffix, different counter values give different boundary strings. |
| PartTree.FindParent | tools/mime-maker.c:184-196 | A part returned by find_parent has an index at or after the search root and before the needle, and holds the needle on its child chain. Completeness is `ParentFoundIffNotRoot`. |
| PartTree.FindInChain | tools/mime-maker.c:188-194 | The loop over one sibling chain returns the search root only when that chain holds the needle, and otherwise a deeper part whose child chain holds it. |
| PartTree.RootHasNoParent | tools/mime-maker.c:184-196 | No parent is found for the mail itself. |
| PartTree.ParentFoundIffNotRoot | tools/mime-maker.c:184-196 | In a tree whose parents are known, searching from the mail finds a parent exactly for the parts other than the mail. |
| PartTree.WithHeader | tools/mime-maker.c:309-312 | Appending through `headers_tail` adds the header after all existing headers of that part. Every other field of the part, and every other part, stays the same. |
| PartTree.ContentChangeKeepsTree | tools/mime-maker.c:309-312 | Changing a part's headers or body, without giving a container a body, keeps the tree and its known parents. |
| PartTree.SiblingKeepsTree | tools/mime-maker.c:344-355 | Linking a fresh empty part as the `next` of a non-root part with no `next` keeps the tree. The new part's container is that of its predecessor. |
| PartTree.ContainerKeepsTree | tools/mime-maker.c:466-493 | Giving a childless, bodiless part a fresh first child, a mediatype and a boundary keeps the tree. The child's container is that part. |
| Serializer.LastNonBlank | tools/mime-maker.c:509-515 | The backward scan stops at the last character that is not a space, tab or LF, or at -1 when there is none. |
| Serializer.CtLineMeaning | tools/mime-maker.c:506-522 | The Content-Type line is refused exactly when the value is empty or all blank. Otherwise exactly one of "" or ";" is added, and the value then ends in ';', blanks aside. |
| Serializer.PartTextIsRender | tools/mime-maker.c:536-559 | The text written for one part equals that part's rendering in the RFC 2046 layout. |
| Serializer.ChainTextIsJoin | tools/mime-maker.c:534-567 | Writing a container's child chain, with the container's delimiter after every part except the last, joins the rendered parts by that delimiter. |
| Serializer.TreeTextIsMultipartLayout | tools/mime-maker.c:529-569 | write_tree on the mail emits the whole tree in the RFC 2046 layout. Each container's children sit between "\n--B\n" and "\n--B--\n" of its own boundary B. |
| Maker.DistinctBoundaries | tools/mime-maker.c:204-219 | No two containers of one context share a boundary string. |
| Maker.ContainerKeepsNumbered | tools/mime-maker.c:481 | The new container's boundary uses the next counter value. Every older boundary keeps its own value, so the counter values stay pairwise distinct. |
| Maker.ContainerKeepsInvariants | tools/mime-maker.c:466-495 | Opening a container keeps the context invariant, with the cursor on the new child. |
| Maker.MissingHeadersStatus | tools/mime-maker.c:574-604 | The intended status of add_missing_headers: NO_DATA exactly when there is no mail, and an error exactly when there is no mail, or when Date is missing and the timestamp cannot be formatted. |
| Maker.MissingHeadersStatusAsWritten | tools/mime-maker.c:576-603 | The status add_missing_headers returns as written agrees with the intended status whenever a header is missing, and is the indeterminate value of the uninitialised `err` when both are present. |
| Maker.UninitialisedStatusEscapes | tools/mime-maker.c:576-603 | With both headers present, the code as written can return a failure where the intended status is success. |
| Maker.MimeMaker.constructor | tools/mime-maker.c:83-96 | A new context has no tree, a zero counter, no suffix and both flags clear. |
| Maker.MimeMaker.SetVerbose | tools/mime-maker.c:136-149 | Level 0 clears verbose and debug. Any other level sets verbose, and a level above 10 also sets debug. debug is never cleared by a non-zero level. |
| Maker.MimeMaker.EnsurePart | tools/mime-maker.c:225-241 | The first use creates the mail as an empty part under the cursor. Later uses change nothing. |
| Maker.MimeMaker.AddHeaderTo | tools/mime-maker.c:293-315 | The canonicalised header is appended to the given part, and the invariant is kept. |
| Maker.MimeMaker.SelectPart | tools/mime-maker.c:333-355 | CONFLICT exactly when the cursor is on the mail and it has a body; the tree is then unchanged. A part with a body below a container gets a fresh empty `next`, and the cursor moves to it. The new arena is `WithSibling` of the old one, about which `SiblingKeepsTree` is proved. |
| Maker.MimeMaker.AnnounceMime | tools/mime-maker.c:364-370 | "MIME-Version: 1.0" is added to the mail, not the current part, and only if the mail lacks it. Afterwards the mail has it. |
| Maker.MimeMaker.AddHeader | tools/mime-maker.c:328-372 | The conflict and sibling rules of SelectPart. No header is added for a NULL name and value. A Content-Type in any case first adds MIME-Version to the mail if missing. The header goes to the selected part. |
| Maker.MimeMaker.LinkSibling | tools/mime-maker.c:348-354 | The cursor's `next`, which was empty, becomes a fresh empty part, and the cursor moves to it. The invariant is kept. The new arena is `WithSibling` of the old one. |
| Maker.MimeMaker.AddBodyData | tools/mime-maker.c:377-397 | CONFLICT with an unchanged tree when the current part has a body. Otherwise the body becomes exactly the data, and an empty body is present, not absent. The cursor stays. |
| Maker.MimeMaker.AddBody | tools/mime-maker.c:406-409 | As add_body, with the string as the data. |
| Maker.MimeMaker.AddStream | tools/mime-maker.c:421-431 | As add_body, with the stream's contents as the data. |
| Maker.MimeMaker.GenerateBoundary | tools/mime-maker.c:204-219 | The suffix is set only when missing and is reused afterwards. Each successful call raises the counter by exactly 1 and returns "=-=" + "%02d" of the counter + "-" + suffix + "=-=". When the suffix cannot be made, the counter is unchanged and no boundary is returned. |
| Maker.MimeMaker.AnnounceContentType | tools/mime-maker.c:459-464 | The mail gets "Content-Type: <mediatype>" only if it has no Content-Type. |
| Maker.MimeMaker.OpenContainer | tools/mime-maker.c:466-495 | On success the part gets a child, a mediatype and a fresh boundary, and the cursor moves to the empty child. When no boundary can be made, the tree is exactly as before and the cursor stays. The new arena is `WithContainer` of the old one, about which `ContainerKeepsInvariants` is proved. |
| Maker.MimeMaker.AddContainer | tools/mime-maker.c:440-496 | CONFLICT with nothing changed when the part has a body. Otherwise the mail gets Content-Type if it lacks one. Then either the container is opened and the cursor is on its new child, or, when the suffix cannot be made, the link is rolled back and a system error is returned. Body-xor-child holds throughout. |
| Maker.MimeMaker.AddMissingHeaders | tools/mime-maker.c:574-604 | NO_DATA without a mail. Otherwise MIME-Version and then Date are added to the mail when missing. A system error is returned only when Date is missing and cannot be formatted. On success both headers are present. |
| Maker.MimeMaker.WriteCtWithBoundary | tools/mime-maker.c:501-524 | INV_VALUE with nothing written for an empty or all-blank value. Otherwise the Content-Type line with the quoted boundary parameter is appended. The appended text is `CtLine`, whose meaning `CtLineMeaning` states. |
| Maker.MimeMaker.WriteHeader | tools/mime-maker.c:538-541 | One header line is written. A container's Content-Type carries the boundary parameter, and an invalid one is silently not written. |
| Maker.MimeMaker.WriteHeaders | tools/mime-maker.c:536-542 | The header loop writes every header of the part in order. |
| Maker.MimeMaker.WritePreamble | tools/mime-maker.c:536-548 | The headers, the blank line and the body, if any, are written. |
| Maker.MimeMaker.WriteChildren | tools/mime-maker.c:549-559 | A container's child chain is written between its delimiter and its close-delimiter. |
| Maker.MimeMaker.WritePart | tools/mime-maker.c:536-559 | The text of one part, with its children if it is a container, is appended. The appended text is `PartText`, equal to the rendering by `PartTextIsRender`. |
| Maker.MimeMaker.WriteTree | tools/mime-maker.c:529-569 | The loop over a sibling chain appends each part, with the parent's delimiter after every part that has a successor. The appended text is `ChainText`, a join by the delimiter by `ChainTextIsJoin`. |
| Maker.MimeMaker.WriteMail | tools/mime-maker.c:619-622 | The text written for the mail is the RFC 2046 rendering of the whole tree. |
| Maker.MimeMaker.Make | tools/mime-maker.c:611-624 | The status is that of add_missing_headers. Nothing is written on error. On success the mail has MIME-Version and Date, and the output is the RFC 2046 rendering of the completed tree. The completed tree is `CompletedRoot` of the old one. |

## Left out

- `mime_maker_release` and `release_parts` free memory, which has no counterpart in a garbage-collected model.
- `dump_parts` and `mime_maker_dump_tree` only write debug logs.
- The context's `cookie` is stored but never used by the modelled functions.
- `gcry_create_nonce` and `zb32_encode` (the RNG and its encoding) are replaced by the `nonce` parameter.
- `rfctimestamp (make_timestamp ())` (the clock) is replaced by the `date` parameter.
- `es_rewind` and `es_fclose_snatch` (the estream calls of `mime_maker_add_stream`) are replaced by the `drained` parameter; their failure is not modelled.
- Allocation failures (`xtrycalloc`, `xtrymalloc`, `xtrystrdup`) are not modelled, except the nonce encoding failure that exercises the add_container rollback.
- `mime_maker_new` can also fail to allocate; the constructor always succeeds.
- Stream write errors in `write_tree` are not modelled; output is a pure append to a string.
- Maker.MimeMaker.GenerateBoundary: `boundary_counter` is a C `int`, and its overflow after 2^31-1 containers is not modelled; the counter is an unbounded natural number.
- Strings are sequences of characters, without a NUL terminator. A C name containing NUL would stop `capitalize_header_name` early; such names cannot arise here.
- Maker.MimeMaker.AddHeader: a NULL name with a value, or a name with a NULL value, is excluded by a precondition. The first passes NULL to `ascii_strcasecmp`, the second passes NULL to `xtrystrdup`.
- The other files of the repository are not part of this model: `tools/gpgconf.c` (CLI and I/O), `g13/g13.c` (option parsing), `g10/server.c` (Assuan stubs) and `g10/dsa.c` (crypto wrappers).

## Findings

| source | as written | input that shows it | evidently intended | confidence | as-written member | corrected member |
|---|---|---|---|---|---|---|
| tools/mime-maker.c:576-603 | `err` is assigned only on paths that add a header, so with both MIME-Version and Date already present, `add_missing_headers` returns an uninitialised value | a mail that already has both "MIME-Version" and "Date" headers, then `mime_maker_make` | return success when both headers are already present | not executed | Maker.UninitialisedStatusEscapes | Maker.MissingHeadersStatus |
