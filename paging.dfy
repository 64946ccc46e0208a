/** The test that decides whether another page follows (ldapReader.h:466-469).

    Section 3 of RFC 2696 ends a paged search with an empty cookie, and the cookie is an opaque octet
    string, so any byte may be zero. The source tests the cookie with `strlen`, which stops at the first
    zero byte; `MorePagesAsWritten` is that test and `MorePages` the one the rest of the model uses. */
module Paging {
  import opened Ldap

  /** `strlen` of the cookie buffer: the bytes before the first zero byte (the library stores a zero
      after the last byte of the cookie). */
  function CStrLen(s: seq<byte>): (n: nat)
    ensures n <= |s|
    ensures forall i :: 0 <= i < n ==> s[i] != 0
    ensures n < |s| ==> s[n] == 0
  {
    if s == [] || s[0] == 0 then 0 else 1 + CStrLen(s[1..])
  }

  /** More pages, as the source decides it: `bv_val != NULL && strlen(bv_val) > 0`. */
  predicate MorePagesAsWritten(cookie: seq<byte>)
    ensures MorePagesAsWritten(cookie) <==> cookie != [] && cookie[0] != 0
  {
    CStrLen(cookie) > 0
  }

  /** More pages, as section 3 of RFC 2696 defines it: the returned cookie is not empty. */
  predicate MorePages(cookie: seq<byte>)
    ensures MorePages(cookie) <==> MorePagesAsWritten(cookie) || (cookie != [] && cookie[0] == 0)
  {
    cookie != []
  }

  /** A two-byte cookie whose first byte is zero announces another page, but the source's test
      reports that there is none, so the remaining pages are never requested. */
  lemma LeadingZeroCookieEndsPagingAsWritten()
    ensures MorePages([0, 7]) && !MorePagesAsWritten([0, 7])
  {
  }
}
