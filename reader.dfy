/** The `ldapReader` class: its fields, and each method proved to follow the function of module
    ReaderSpec that specifies it. */
module LdapReader {
  import opened Wrappers
  import opened Ldap
  import ReaderSpec

  class Reader {
    /** The server behind `connection`. */
    const directory: Directory

    var isBound: bool
    var credExist: bool
    var bindUser: string
    var bindPass: string
    var credLen: nat
    var pageSize: int
    var pagingCritical: char
    var searchBase: Option<string>
    var searchFilter: Option<string>
    var requestedAttributes: Option<seq<Option<string>>>
    var pageControl: Option<PageControl>
    var cookie: seq<byte>
    var morePages: bool
    var result: Option<seq<Entry>>
    var entry: Option<ReaderSpec.EntryRef>

    /** The fields as one value. */
    function State(): ReaderSpec.ReaderState
      reads this
    {
      ReaderSpec.ReaderState(
        isBound, credExist, bindUser, bindPass, credLen, pageSize, pagingCritical,
        searchBase, searchFilter, requestedAttributes, pageControl, cookie, morePages, result, entry)
    }

    ghost predicate Valid()
      reads this
    {
      ReaderSpec.Valid(State())
    }

    /** A reader on an initialised connection, with the defaults `_start` sets. */
    constructor (directory: Directory)
      ensures this.directory == directory && Valid()
      ensures State() == ReaderSpec.Initial()
      ensures !isBound && !credExist && result.None? && entry.None? && !morePages
      ensures pageSize == 1000 && pagingCritical == 'T'
    {
      this.directory := directory;
      isBound, credExist := false, false;
      bindUser, bindPass, credLen := "", "", 0;
      pageSize := ReaderSpec.DefaultPageSize;
      pagingCritical := ReaderSpec.DefaultPagingCritical;
      searchBase, searchFilter, requestedAttributes := None, None, None;
      pageControl := None;
      cookie, morePages := [], false;
      result, entry := None, None;
    }

    /** `bind(rebind)`. */
    method Bind(rebind: bool) returns (o: Outcome<ReaderSpec.Error>)
      requires Valid()
      modifies this
      ensures Valid()
      ensures (State(), o) == ReaderSpec.Bind(old(State()), directory, rebind)
    {
      if isBound && !rebind {
        return Fail(ReaderSpec.AlreadyBound);
      }
      if !credExist {
        return Fail(ReaderSpec.NoCredentials);
      }
      o := ServerBind();
    }

    /** `bind(user, pass, rebind)`. */
    method BindAs(user: string, pass: string, rebind: bool) returns (o: Outcome<ReaderSpec.Error>)
      requires Valid()
      modifies this
      ensures Valid()
      ensures (State(), o) == ReaderSpec.BindAs(old(State()), directory, user, pass, rebind)
    {
      if isBound && !rebind {
        return Fail(ReaderSpec.AlreadyBound);
      }
      SetCred(user, pass);
      o := ServerBind();
    }

    /** `setPageSize(ps)`: later page requests ask for `ps` entries. */
    method SetPageSize(ps: int)
      modifies this
      ensures State() == old(State()).(pageSize := ps)
    {
      pageSize := ps;
    }

    /** `query(filter, base, names...)`; `query(filter, base)` is this with no names. */
    method Query(filter: string, base: string, names: seq<string>) returns (o: Outcome<ReaderSpec.Error>)
      requires Valid()
      modifies this
      ensures Valid()
      ensures (State(), o) == ReaderSpec.Query(old(State()), directory, filter, base, names)
    {
      searchFilter := Some(filter);
      searchBase := Some(base);
      if |names| > 0 {
        if |names| > ReaderSpec.MaxAttributes {
          return Fail(ReaderSpec.TooManyAttributes);
        }
        var list := new Option<string>[|names| + 1](_ => None);
        for i := 0 to |names|
          modifies list
          invariant forall j :: 0 <= j < i ==> list[j] == Some(names[j])
        {
          list[i] := Some(names[i]);
        }
        list[|names|] := None;
        assert list[..] == Terminated(names);
        requestedAttributes := Some(list[..]);
      } else {
        requestedAttributes := None;
      }
      o := RunPageSearch();
    }

    /** `fetch()`: moves the entry pointer on and reports whether it points at an entry. */
    method Fetch() returns (r: Result<bool, ReaderSpec.Error>)
      requires Valid()
      modifies this
      ensures Valid()
      ensures (State(), r) == ReaderSpec.Fetch(old(State()), directory)
      decreases if entry.None? then 0 else 1
    {
      if result.None? {
        return Ok(false);
      } else if entry.None? {
        if result.value == [] {
          return Ok(false);
        }
        entry := Some(ReaderSpec.EntryRef(result.value, 0));
        return Ok(true);
      }
      var e := entry.value;
      if e.index + 1 < |e.page| {
        entry := Some(ReaderSpec.EntryRef(e.page, e.index + 1));
        return Ok(true);
      }
      entry := None;
      if morePages {
        var o := RunPageSearch();
        if o.Fail? {
          return Err(o.error);
        }
        r := Fetch();
      } else {
        r := Ok(false);
      }
    }

    /** `getAttribute(name)`: the values of attribute `name` of the current entry. */
    method GetAttribute(name: string) returns (r: Result<Option<seq<Option<Value>>>, ReaderSpec.Error>)
      requires Valid()
      ensures r.Err? <==> entry.None?
      ensures r.Err? ==> ReaderSpec.Message(r.error) == "No entry retrieved from server"
      ensures r.Ok? ==> r.value == ValuesOf(entry.value.page[entry.value.index], name)
      ensures r == ReaderSpec.GetAttribute(State(), name)
    {
      if entry.None? {
        return Err(ReaderSpec.NoEntry);
      }
      r := Ok(ValuesOf(entry.value.page[entry.value.index], name));
    }

    /** `clearBerval(ptr)`: frees the values of a NULL-terminated array, in order, up to the
        terminator; nothing for NULL. Returns the values freed. */
    static method ClearBerval(ptr: Option<seq<Option<Value>>>) returns (freed: seq<Value>)
      requires ptr.Some? ==> None in ptr.value
      ensures ptr.None? ==> freed == []
      ensures ptr.Some? ==> freed == UpToTerminator(ptr.value)
    {
      freed := [];
      if ptr.None? {
        return;
      }
      var values := ptr.value;
      ghost var end :| 0 <= end < |values| && values[end] == None;
      var i := 0;
      while values[i].Some?
        invariant i <= end
        invariant UpToTerminator(values) == freed + UpToTerminator(values[i..])
        decreases end - i
      {
        UpToTerminatorStep(values, i);
        freed := freed + [values[i].value];
        i := i + 1;
      }
      assert values[i..][0] == None;
    }

    /** `_setCred`. */
    method SetCred(user: string, pass: string)
      modifies this
      ensures State() == ReaderSpec.SetCred(old(State()), user, pass)
    {
      bindUser := user;
      bindPass, credLen := pass, |pass|;
      credExist := true;
    }

    /** `_bind`. */
    method ServerBind() returns (o: Outcome<ReaderSpec.Error>)
      modifies this
      ensures (State(), o) == ReaderSpec.ServerBind(old(State()), directory)
    {
      match directory.bind(bindUser, bindPass)
      case Success =>
        isBound := true;
        o := Pass;
      case Failure(m) =>
        o := Fail(ReaderSpec.LdapError(m));
    }

    /** `_prepareControls` with `_preparePageControl`: frees the previous control and builds the
        control of the next request, which fails for a page size below 1. */
    method PrepareControls() returns (o: Outcome<ReaderSpec.Error>)
      modifies this
      ensures (State(), o) == ReaderSpec.PrepareControls(old(State()))
    {
      pageControl := None;
      if pageSize < 1 {
        return Fail(ReaderSpec.LdapError(ReaderSpec.BadParameter));
      }
      pageControl := Some(PageControl(pageSize, cookie, pagingCritical));
      o := Pass;
    }

    /** `_query`: one page search. */
    method RunPageSearch() returns (o: Outcome<ReaderSpec.Error>)
      modifies this
      ensures (State(), o) == ReaderSpec.PageSearch(old(State()), directory)
    {
      o := PrepareControls();
      if o.Fail? {
        return;
      }
      var reply := directory.search(SearchRequest(searchBase, searchFilter, requestedAttributes, pageControl.value));
      match reply
      case Refused(m, stored) =>
        result := stored;
        o := Fail(ReaderSpec.LdapError(m));
      case Unparsable(m, entries) =>
        result := Some(entries);
        o := Fail(ReaderSpec.LdapError(m));
      case Paged(entries, returned) =>
        result := Some(entries);
        cookie := returned;
        morePages := returned != [];
        o := Pass;
    }
  }
}
