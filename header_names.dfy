/** The header store: canonical capitalisation of header names and the
    lookup of a header by its canonical name. */
module HeaderNames {
  import opened MimeTypes

  const MimeVersion := "MIME-Version"
  const ContentType := "Content-Type"
  const Date := "Date"

  function AsciiLower(c: char): char {
    if 'A' <= c <= 'Z' then (c as int - 'A' as int + 'a' as int) as char else c
  }

  function AsciiUpper(c: char): char {
    if 'a' <= c <= 'z' then (c as int - 'a' as int + 'A' as int) as char else c
  }

  /** ascii_strcasecmp (a, b) == 0: equal up to the case of ASCII letters. */
  predicate EqualsIgnoreCase(a: string, b: string) {
    |a| == |b| && forall i :: 0 <= i < |a| ==> AsciiLower(a[i]) == AsciiLower(b[i])
  }

  /** No ':' occurs in s[..k+1]: the capitalisation loop reaches position k. */
  predicate BeforeColon(s: string, k: nat)
    requires k < |s|
  {
    forall j :: 0 <= j <= k ==> s[j] != ':'
  }

  /** The character the regular capitalisation leaves at position k: a
      letter that starts the name or follows a '-' is upper-cased, any
      other letter is lower-cased, and nothing from the first ':' on
      changes. */
  function CapitalizedAt(s: string, k: nat): char
    requires k < |s|
  {
    if !BeforeColon(s, k) || s[k] == '-' then s[k]
    else if k == 0 || s[k - 1] == '-' then AsciiUpper(s[k])
    else AsciiLower(s[k])
  }

  function CapitalizeRegular(s: string): (r: string)
    ensures |r| == |s|
  {
    seq(|s|, k requires 0 <= k < |s| => CapitalizedAt(s, k))
  }

  /** The canonical form of a header name, as capitalize_header_name
      leaves it: any-case "mime-version" becomes exactly "MIME-Version";
      every other name is capitalised segment by segment. */
  function Capitalize(s: string): (r: string)
    ensures |r| == |s|
    ensures EqualsIgnoreCase(r, s)
    ensures EqualsIgnoreCase(s, MimeVersion) ==> r == MimeVersion
  {
    if EqualsIgnoreCase(s, MimeVersion) then MimeVersion else CapitalizeRegular(s)
  }

  /** capitalize_header_name: rewrites the name buffer in place. */
  method CapitalizeHeaderName(name: array<char>)
    modifies name
    ensures name[..] == Capitalize(old(name[..]))
  {
    if EqualsIgnoreCase(name[..], MimeVersion) {
      forall i | 0 <= i < name.Length {
        name[i] := MimeVersion[i];
      }
      return;
    }
    ghost var orig := name[..];
    var first := true;
    var i := 0;
    while i < name.Length && name[i] != ':'
      invariant 0 <= i <= name.Length
      invariant forall j :: 0 <= j < i ==> orig[j] != ':'
      invariant first == (i == 0 || orig[i - 1] == '-')
      invariant forall j :: 0 <= j < i ==> name[j] == CapitalizedAt(orig, j)
      invariant forall j :: i <= j < name.Length ==> name[j] == orig[j]
    {
      assert name[i] == orig[i] && BeforeColon(orig, i);
      if name[i] == '-' {
        first := true;
      } else if first {
        if 'a' <= name[i] <= 'z' {
          name[i] := (name[i] as int - 'a' as int + 'A' as int) as char;
        }
        first := false;
      } else if 'A' <= name[i] <= 'Z' {
        name[i] := (name[i] as int - 'A' as int + 'a' as int) as char;
      }
      assert name[i] == CapitalizedAt(orig, i);
      i := i + 1;
    }
    forall j | i <= j < name.Length
      ensures name[j] == CapitalizedAt(orig, j)
    {
      assert orig[i] == ':';
      assert !BeforeColon(orig, j);
    }
    assert name[..] == CapitalizeRegular(orig);
  }

  /** Canonicalising a canonical name changes nothing. */
  lemma {:induction false} CapitalizeIdempotent(s: string)
    ensures Capitalize(Capitalize(s)) == Capitalize(s)
  {
    var r := Capitalize(s);
    if !EqualsIgnoreCase(s, MimeVersion) {
      assert r == CapitalizeRegular(s);
      assert !EqualsIgnoreCase(r, MimeVersion) by {
        if EqualsIgnoreCase(r, MimeVersion) {
          forall i | 0 <= i < |s| ensures AsciiLower(s[i]) == AsciiLower(MimeVersion[i]) {
            assert AsciiLower(r[i]) == AsciiLower(s[i]);
          }
          assert false;
        }
      }
      forall k | 0 <= k < |r| ensures CapitalizedAt(r, k) == r[k] {
        assert BeforeColon(r, k) == BeforeColon(s, k) by {
          forall j | 0 <= j <= k ensures (r[j] == ':') == (s[j] == ':') {
            assert r[j] == CapitalizedAt(s, j);
          }
        }
        if k > 0 {
          assert (r[k - 1] == '-') == (s[k - 1] == '-') by {
            assert r[k - 1] == CapitalizedAt(s, k - 1);
          }
        }
      }
      assert CapitalizeRegular(r) == r;
    }
  }

  /** The names the maker itself injects are already canonical. */
  lemma InjectedNamesCanonical()
    ensures Capitalize(MimeVersion) == MimeVersion
    ensures Capitalize(ContentType) == ContentType
    ensures Capitalize(Date) == Date
  {
    ContentTypeAnyCase(ContentType);
    DateCanonical();
  }

  lemma DateCanonical()
    ensures Capitalize(Date) == Date
  {
    assert !EqualsIgnoreCase(Date, MimeVersion);
    forall k | 0 <= k < |Date| ensures CapitalizedAt(Date, k) == Date[k] {
      assert BeforeColon(Date, k);
    }
    assert CapitalizeRegular(Date) == Date;
  }

  /** A name spelled "Content-Type" in any case canonicalises to it. */
  lemma ContentTypeAnyCase(name: string)
    requires EqualsIgnoreCase(name, ContentType)
    ensures Capitalize(name) == ContentType
  {
    assert !EqualsIgnoreCase(name, MimeVersion) by {
      assert AsciiLower(name[0]) == AsciiLower(ContentType[0]);
    }
    forall j | 0 <= j < |name| ensures name[j] != ':' {
      assert AsciiLower(name[j]) == AsciiLower(ContentType[j]);
    }
    forall k | 0 <= k < |name| ensures CapitalizedAt(name, k) == ContentType[k] {
      CaseFolded(name[k], ContentType[k]);
      assert BeforeColon(name, k);
      if k > 0 {
        CaseFolded(name[k - 1], ContentType[k - 1]);
      }
    }
    assert CapitalizeRegular(name) == ContentType;
  }

  /** A character equal to T up to case becomes T under the case mapping
      that T itself is in. */
  lemma CaseFolded(c: char, t: char)
    requires AsciiLower(c) == AsciiLower(t)
    ensures 'A' <= t <= 'Z' ==> AsciiUpper(c) == t
    ensures 'a' <= t <= 'z' ==> AsciiLower(c) == t
    ensures !('A' <= t <= 'Z') && !('a' <= t <= 'z') ==> c == t
  {
  }

  /** A name whose canonical form is "Content-Type" was spelled
      "Content-Type" in some case, and conversely. */
  lemma CanonicalContentType(name: string)
    ensures Capitalize(name) == ContentType <==> EqualsIgnoreCase(name, ContentType)
  {
    if EqualsIgnoreCase(name, ContentType) {
      ContentTypeAnyCase(name);
    }
    if Capitalize(name) == ContentType {
      var r := Capitalize(name);
      forall i | 0 <= i < |name| ensures AsciiLower(name[i]) == AsciiLower(ContentType[i]) {
        assert AsciiLower(r[i]) == AsciiLower(name[i]);
      }
    }
  }

  /** have_header's question: does some stored name equal NAME exactly? */
  predicate HasHeader(headers: seq<Header>, name: string) {
    exists i :: 0 <= i < |headers| && headers[i].name == name
  }

  /** have_header: a front-to-back scan of the header list. */
  method HaveHeader(headers: seq<Header>, name: string) returns (found: bool)
    ensures found <==> HasHeader(headers, name)
  {
    var i := 0;
    while i < |headers|
      invariant 0 <= i <= |headers|
      invariant forall j :: 0 <= j < i ==> headers[j].name != name
    {
      if headers[i].name == name {
        return true;
      }
      i := i + 1;
    }
    return false;
  }
}
