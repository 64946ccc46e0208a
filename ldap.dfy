/** The part of libldap the reader relies on, as values and an abstract, deterministic directory server. */
module Ldap {
  import opened Wrappers

  newtype byte = x: int | 0 <= x < 256

  /** One attribute value, a `struct berval`: a length and that many bytes. */
  type Value = seq<byte>

  /** One directory object of a search result: its DN and its attributes, each with its values in server order. */
  datatype Entry = Entry(dn: string, attributes: map<string, seq<Value>>)

  /** A C array of pointers that ends in NULL, written as a sequence in which `None` is the NULL terminator. */
  function Terminated<T>(xs: seq<T>): (r: seq<Option<T>>)
    ensures |r| == |xs| + 1 && r[|xs|] == None
    ensures forall i :: 0 <= i < |xs| ==> r[i] == Some(xs[i])
  {
    if xs == [] then [None] else [Some(xs[0])] + Terminated(xs[1..])
  }

  /** The elements a C loop `for (i = 0; p[i] != NULL; i++)` visits: everything before the first NULL. */
  function UpToTerminator<T>(s: seq<Option<T>>): (r: seq<T>)
    ensures |r| <= |s|
  {
    if s == [] || s[0].None? then [] else [s[0].value] + UpToTerminator(s[1..])
  }

  /** What `UpToTerminator` yields are the elements before the first NULL, in order, and the element
      after them is NULL unless the array has no NULL at all. */
  lemma {:induction false} UpToTerminatorIsPrefix<T>(s: seq<Option<T>>)
    ensures var r := UpToTerminator(s);
      && (forall i :: 0 <= i < |r| ==> s[i] == Some(r[i]))
      && (|r| < |s| ==> s[|r|] == None)
      && (|r| == |s| ==> None !in s)
  {
    if s != [] && s[0].Some? {
      UpToTerminatorIsPrefix(s[1..]);
      var r := UpToTerminator(s);
      assert r == [s[0].value] + UpToTerminator(s[1..]);
      forall i | 0 <= i < |r| ensures s[i] == Some(r[i]) {
        if i > 0 {
          assert s[i] == s[1..][i - 1];
        }
      }
      if |r| == |s| {
        assert s == [s[0]] + s[1..];
      }
    }
  }

  /** Reading from a non-NULL element on: that element, then what follows it. */
  lemma UpToTerminatorStep<T>(s: seq<Option<T>>, i: nat)
    requires i < |s| && s[i].Some?
    ensures UpToTerminator(s[i..]) == [s[i].value] + UpToTerminator(s[i + 1..])
  {
    assert s[i..][1..] == s[i + 1..];
  }

  /** Reading a NULL-terminated array back up to its terminator gives exactly the elements put into it. */
  lemma {:induction false} UpToTerminatorOfTerminated<T>(xs: seq<T>)
    ensures UpToTerminator(Terminated(xs)) == xs
  {
    if xs != [] {
      assert Terminated(xs)[1..] == Terminated(xs[1..]);
      UpToTerminatorOfTerminated(xs[1..]);
    }
  }

  /** `ldap_get_values_len`: NULL when the entry has no such attribute, otherwise its values in server
      order followed by a NULL terminator. */
  function ValuesOf(e: Entry, name: string): (r: Option<seq<Option<Value>>>)
    ensures r.Some? <==> name in e.attributes
    ensures r.Some? ==> r.value == Terminated(e.attributes[name]) && None in r.value
    ensures r.Some? ==> UpToTerminator(r.value) == e.attributes[name]
  {
    if name in e.attributes then
      UpToTerminatorOfTerminated(e.attributes[name]);
      Some(Terminated(e.attributes[name]))
    else
      None
  }

  /** The Simple Paged Results control of RFC 2696, section 2, as `ldap_create_page_control` builds it:
      the page size, the cookie and the criticality flag. */
  datatype PageControl = PageControl(size: int, cookie: seq<byte>, critical: char)

  /** One call of `ldap_search_ext_s` with subtree scope, attributes and values, no client-side size or
      time limit, and exactly one request control. */
  datatype SearchRequest = SearchRequest(
    base: Option<string>,
    filter: Option<string>,
    attributes: Option<seq<Option<string>>>,
    control: PageControl)

  /** What the library reports for one page search.
      - `Paged`: the search and both parses succeeded; the entries of the page and the cookie returned in
        the page response control.
      - `Refused`: `ldap_search_ext_s` failed; the message of its error code and whatever it stored
        in the result pointer.
      - `Unparsable`: the search succeeded but `ldap_parse_result` or `ldap_parse_pageresponse_control`
        failed; the message of that error and the page that was stored. */
  datatype SearchReply =
    | Paged(entries: seq<Entry>, cookie: seq<byte>)
    | Refused(message: string, stored: Option<seq<Entry>>)
    | Unparsable(message: string, entries: seq<Entry>)

  /** The outcome of `ldap_sasl_bind_s`: success, or the message `ldap_err2string` gives for the error. */
  datatype ResultCode = Success | Failure(message: string)

  /** The server behind the connection: its answer to a simple bind (DN, password) and to a page search. */
  datatype Directory = Directory(
    bind: (string, string) -> ResultCode,
    search: SearchRequest -> SearchReply)
}
