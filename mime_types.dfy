/** Values shared by every part of the MIME maker model: optional values
    (the C code's NULL pointers), the error codes the maker returns, and
    the two records of the MIME tree, a header and a part. */
module MimeTypes {

  /** A value that may be absent, standing for a pointer that may be NULL. */
  datatype Option<+T> = None | Some(value: T)

  /** The gpg-error codes the maker returns.  SysError stands for
      gpg_error_from_syserror after a failed allocation. */
  datatype ErrorCode = Conflict | InvValue | NoData | SysError

  /** Outcome of a maker call: 0 or one gpg-error code. */
  datatype Status = Ok | Err(code: ErrorCode)

  /** One header line of a part; the name is stored in canonical form. */
  datatype Header = Header(name: string, value: string)

  /** One node of the MIME tree.  `child` and `next` are indices into the
      arena that owns the node (the C code's `child` and `next` pointers);
      a present body of length 0 is distinct from an absent body. */
  datatype Part = Part(
    headers: seq<Header>,
    body: Option<string>,
    child: Option<nat>,
    next: Option<nat>,
    mediatype: Option<string>,
    boundary: Option<string>)

  /** A freshly allocated part: calloc leaves every field empty. */
  const EmptyPart := Part([], None, None, None, None, None)
}
