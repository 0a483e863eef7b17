/**
 * The calendarserver.org `invite` property of a shared calendar: who the
 * calendar is shared with, each sharee's answer to the invitation and
 * access level, and (for a sharee asking) who shared it.
 */
module XmlInvite {
  import opened Php
  import opened XmlTree

  const HREF := "{DAV:}href"
  const ORGANIZER := "{http://calendarserver.org/ns/}organizer"
  const COMMON_NAME := "{http://calendarserver.org/ns/}common-name"
  const FIRST_NAME := "{http://calendarserver.org/ns/}first-name"
  const LAST_NAME := "{http://calendarserver.org/ns/}last-name"
  const USER := "{http://calendarserver.org/ns/}user"
  const INVITE_ACCEPTED := "{http://calendarserver.org/ns/}invite-accepted"
  const INVITE_DECLINED := "{http://calendarserver.org/ns/}invite-declined"
  const INVITE_NORESPONSE := "{http://calendarserver.org/ns/}invite-noresponse"
  const INVITE_INVALID := "{http://calendarserver.org/ns/}invite-invalid"
  const ACCESS := "{http://calendarserver.org/ns/}access"
  const READ := "{http://calendarserver.org/ns/}read"
  const READ_WRITE := "{http://calendarserver.org/ns/}read-write"
  const SUMMARY := "{http://calendarserver.org/ns/}summary"

  /** The sharing plugin's invitation states. */
  const STATUS_ACCEPTED := 1
  const STATUS_DECLINED := 2
  const STATUS_DELETED := 3
  const STATUS_NORESPONSE := 4
  const STATUS_INVALID := 5

  /**
   * A sharee. Every field may be null: `readOnly` is a boolean when the
   * application builds the property, but the reader only ever sets it to
   * true.
   */
  datatype User = User(href: Option<string>, commonName: Option<string>, status: Option<int>,
                       readOnly: Option<bool>, summary: Option<string>)

  datatype Organizer = Organizer(href: string, commonName: Option<string>, firstName: Option<string>,
                                 lastName: Option<string>)

  /** `getValue` returns `users` exactly as given. */
  datatype Invite = Invite(users: seq<User>, organizer: Option<Organizer>)

  /** The element an invitation state is written as, if any. */
  function StatusName(status: Option<int>): Option<string> {
    if status == Some(STATUS_ACCEPTED) then Some(INVITE_ACCEPTED)
    else if status == Some(STATUS_DECLINED) then Some(INVITE_DECLINED)
    else if status == Some(STATUS_NORESPONSE) then Some(INVITE_NORESPONSE)
    else if status == Some(STATUS_INVALID) then Some(INVITE_INVALID)
    else None
  }

  /** The invitation state an element name stands for, if any. */
  function NameStatus(name: string): Option<int> {
    if name == INVITE_ACCEPTED then Some(STATUS_ACCEPTED)
    else if name == INVITE_DECLINED then Some(STATUS_DECLINED)
    else if name == INVITE_NORESPONSE then Some(STATUS_NORESPONSE)
    else if name == INVITE_INVALID then Some(STATUS_INVALID)
    else None
  }

  lemma StatusNamesInverse(status: Option<int>)
    ensures StatusName(status).Some? ==> NameStatus(StatusName(status).value) == status
    ensures StatusName(status).None? <==> status !in {Some(STATUS_ACCEPTED), Some(STATUS_DECLINED), Some(STATUS_NORESPONSE), Some(STATUS_INVALID)}
  {
    assert INVITE_ACCEPTED[38] != INVITE_DECLINED[38];
  }

  // ---------------------------------------------------------------- writing

  /** An optional string child: written only when it is set and truthy. */
  function OptionalElem(name: string, v: Option<string>): seq<Elem> {
    if OptTruthy(v) then [Elem(name, [], Text(v.value))] else []
  }

  /** `writeElement` of a possibly null string. */
  function TextOrNull(v: Option<string>): Value {
    if v.Some? then Text(v.value) else Null
  }

  function OrganizerKids(o: Organizer): seq<Elem> {
    [Elem(HREF, [], Text(o.href))]
    + OptionalElem(COMMON_NAME, o.commonName)
    + OptionalElem(FIRST_NAME, o.firstName)
    + OptionalElem(LAST_NAME, o.lastName)
  }

  function StatusElems(status: Option<int>): seq<Elem> {
    if StatusName(status).Some? then [Elem(StatusName(status).value, [], Null)] else []
  }

  function AccessElem(readOnly: Option<bool>): Elem {
    Elem(ACCESS, [], Items([Elem(if readOnly == Some(true) then READ else READ_WRITE, [], Null)]))
  }

  function UserKids(u: User): seq<Elem> {
    [Elem(HREF, [], TextOrNull(u.href))]
    + OptionalElem(COMMON_NAME, u.commonName)
    + StatusElems(u.status)
    + [AccessElem(u.readOnly)]
    + OptionalElem(SUMMARY, u.summary)
  }

  function UserElem(u: User): Elem {
    Elem(USER, [], Items(UserKids(u)))
  }

  function UserElems(users: seq<User>): (r: seq<Elem>)
    ensures |r| == |users|
  {
    seq(|users|, i requires 0 <= i < |users| => UserElem(users[i]))
  }

  /** The elements written inside the property element: the organizer, if any, then one element per user. */
  function Written(inv: Invite): seq<Elem> {
    (if inv.organizer.Some? then [Elem(ORGANIZER, [], Items(OrganizerKids(inv.organizer.value)))] else [])
    + UserElems(inv.users)
  }

  method WriteOptional(w: Writer, name: string, v: Option<string>)
    modifies w
    ensures w.events == old(w.events) + ElemsEvents(OptionalElem(name, v))
  {
    if OptTruthy(v) {
      w.WriteElement(name, Text(v.value));
      assert ElemsEvents(OptionalElem(name, v)) == ElemEvents(Elem(name, [], Text(v.value))) + ElemsEvents([]);
    }
  }

  /** Writes a child whose content is a (possibly null) string. */
  method WriteText(w: Writer, name: string, v: Option<string>)
    modifies w
    ensures w.events == old(w.events) + ElemsEvents([Elem(name, [], TextOrNull(v))])
  {
    EventsOfOne(Elem(name, [], TextOrNull(v)));
    w.WriteElement(name, TextOrNull(v));
  }

  method WriteOrganizerKids(w: Writer, o: Organizer)
    modifies w
    ensures w.events == old(w.events) + ElemsEvents(OrganizerKids(o))
  {
    var a := [Elem(HREF, [], TextOrNull(Some(o.href)))];
    var b := OptionalElem(COMMON_NAME, o.commonName);
    var c := OptionalElem(FIRST_NAME, o.firstName);
    var d := OptionalElem(LAST_NAME, o.lastName);
    ElemsEventsConcat4(w.events, a, b, c, d);
    WriteText(w, HREF, Some(o.href));
    WriteOptional(w, COMMON_NAME, o.commonName);
    WriteOptional(w, FIRST_NAME, o.firstName);
    WriteOptional(w, LAST_NAME, o.lastName);
  }

  method WriteOrganizer(w: Writer, o: Organizer)
    modifies w
    ensures w.events == old(w.events) + ElemEvents(Elem(ORGANIZER, [], Items(OrganizerKids(o))))
  {
    WrapEvents(w.events, ORGANIZER, OrganizerKids(o));
    w.StartElement(ORGANIZER);
    WriteOrganizerKids(w, o);
    w.EndElement();
  }

  method WriteStatus(w: Writer, status: Option<int>)
    modifies w
    ensures w.events == old(w.events) + ElemsEvents(StatusElems(status))
  {
    if status == Some(STATUS_ACCEPTED) {
      w.WriteElement(INVITE_ACCEPTED, Null);
    } else if status == Some(STATUS_DECLINED) {
      w.WriteElement(INVITE_DECLINED, Null);
    } else if status == Some(STATUS_NORESPONSE) {
      w.WriteElement(INVITE_NORESPONSE, Null);
    } else if status == Some(STATUS_INVALID) {
      w.WriteElement(INVITE_INVALID, Null);
    }
    if StatusName(status).Some? {
      EventsOfOne(Elem(StatusName(status).value, [], Null));
    }
  }

  method WriteAccess(w: Writer, readOnly: Option<bool>)
    modifies w
    ensures w.events == old(w.events) + ElemsEvents([AccessElem(readOnly)])
  {
    var right := if readOnly == Some(true) then READ else READ_WRITE;
    ElemEventsOfItems(ACCESS, [Elem(right, [], Null)]);
    EventsOfOne(Elem(right, [], Null));
    EventsOfOne(AccessElem(readOnly));
    w.StartElement(ACCESS);
    if readOnly == Some(true) {
      w.WriteElement(READ, Null);
    } else {
      w.WriteElement(READ_WRITE, Null);
    }
    w.EndElement();
  }

  /** The children before the access element: href, common name, invitation state. */
  method WriteUserHead(w: Writer, u: User)
    modifies w
    ensures w.events == old(w.events)
      + ElemsEvents([Elem(HREF, [], TextOrNull(u.href))] + OptionalElem(COMMON_NAME, u.commonName) + StatusElems(u.status))
  {
    var a := [Elem(HREF, [], TextOrNull(u.href))];
    var b := OptionalElem(COMMON_NAME, u.commonName);
    var c := StatusElems(u.status);
    ElemsEventsConcat3(w.events, a, b, c);
    WriteText(w, HREF, u.href);
    WriteOptional(w, COMMON_NAME, u.commonName);
    WriteStatus(w, u.status);
  }

  method WriteUserKids(w: Writer, u: User)
    modifies w
    ensures w.events == old(w.events) + ElemsEvents(UserKids(u))
  {
    var head := [Elem(HREF, [], TextOrNull(u.href))] + OptionalElem(COMMON_NAME, u.commonName) + StatusElems(u.status);
    ElemsEventsConcat3(w.events, head, [AccessElem(u.readOnly)], OptionalElem(SUMMARY, u.summary));
    WriteUserHead(w, u);
    WriteAccess(w, u.readOnly);
    WriteOptional(w, SUMMARY, u.summary);
  }

  /** One sharee: href, common name, invitation state, access level, summary. */
  method WriteUser(w: Writer, u: User)
    modifies w
    ensures w.events == old(w.events) + ElemEvents(UserElem(u))
  {
    WrapEvents(w.events, USER, UserKids(u));
    w.StartElement(USER);
    WriteUserKids(w, u);
    w.EndElement();
  }

  /** The loop over the users: one user element each, in order. */
  method WriteUsers(w: Writer, users: seq<User>)
    modifies w
    ensures w.events == old(w.events) + ElemsEvents(UserElems(users))
  {
    var i := 0;
    while i < |users|
      invariant 0 <= i <= |users|
      invariant w.events == old(w.events) + ElemsEvents(UserElems(users[..i]))
    {
      WrittenUsersStep(old(w.events), users, i);
      WriteUser(w, users[i]);
      i := i + 1;
    }
    assert users[..i] == users;
  }

  /** One more user written after the first `i`. */
  lemma WrittenUsersStep(before: seq<Event>, users: seq<User>, i: nat)
    requires i < |users|
    ensures before + ElemsEvents(UserElems(users[..i])) + ElemEvents(UserElem(users[i]))
         == before + ElemsEvents(UserElems(users[..i + 1]))
  {
    assert UserElems(users[..i + 1]) == UserElems(users[..i]) + [UserElem(users[i])];
    ElemsEventsAppend(UserElems(users[..i]), UserElem(users[i]));
  }

  /**
   * `serializeXml`: the organizer block when an organizer is given, then
   * every user in order.
   */
  method SerializeXml(inv: Invite, w: Writer)
    modifies w
    ensures w.events == old(w.events) + ElemsEvents(Written(inv))
  {
    var head: seq<Elem> := if inv.organizer.Some? then [Elem(ORGANIZER, [], Items(OrganizerKids(inv.organizer.value)))] else [];
    ElemsEventsConcat2(w.events, head, UserElems(inv.users));
    if inv.organizer.Some? {
      EventsOfOne(head[0]);
      WriteOrganizer(w, inv.organizer.value);
    } else {
      assert w.events == old(w.events) + ElemsEvents(head);
    }
    WriteUsers(w, inv.users);
  }

  // ---------------------------------------------------------------- reading

  const NEW_USER := User(None, None, None, None, None)

  /** Whether an access element's children grant read-only access. */
  predicate HasRead(es: seq<Elem>) {
    exists i :: 0 <= i < |es| && es[i].name == READ
  }

  /** The body of the loop over a user element's children. */
  function UserStep(u: User, e: Elem): User {
    if NameStatus(e.name).Some? then u.(status := NameStatus(e.name))
    else if e.name == HREF then u.(href := TextOf(e.value))
    else if e.name == COMMON_NAME then u.(commonName := TextOf(e.value))
    else if e.name == ACCESS then (if HasRead(ElemsOf(e.value)) then u.(readOnly := Some(true)) else u)
    else if e.name == SUMMARY then u.(summary := TextOf(e.value))
    else u
  }

  /** The sharee read from a user element. */
  function ReadUser(e: Elem): User {
    Foreach(UserStep, NEW_USER, ElemsOf(e.value))
  }

  /** The body of the loop over the property's children. */
  function UsersStep(acc: Result<seq<User>>, e: Elem): Result<seq<User>> {
    if acc.Err? || e.name != USER then acc
    else if ReadUser(e).status.None? then Err(InvalidArgument)
    else Ok(acc.value + [ReadUser(e)])
  }

  function ReadUsers(es: seq<Elem>): Result<seq<User>> {
    Foreach(UsersStep, Ok([]), es)
  }

  /** The property read from its inner tree; the organizer is never read back. */
  function ReadInvite(inner: Value): Result<Invite> {
    match ReadUsers(ElemsOf(inner))
    case Ok(users) => Ok(Invite(users, None))
    case Err(e) => Err(e)
  }

  /** The innermost loop: any read child of an access element makes the user read-only. */
  method ReadAccess(u: User, es: seq<Elem>) returns (r: User)
    ensures r == if HasRead(es) then u.(readOnly := Some(true)) else u
  {
    r := u;
    var i := 0;
    while i < |es|
      invariant 0 <= i <= |es|
      invariant r == if HasRead(es[..i]) then u.(readOnly := Some(true)) else u
    {
      if es[i].name == READ {
        r := r.(readOnly := Some(true));
      }
      assert forall j :: 0 <= j < i ==> es[..i + 1][j] == es[..i][j];
      assert es[..i + 1][i] == es[i];
      i := i + 1;
    }
    assert es[..i] == es;
  }

  /** The loop over one user element's children. */
  method ReadUserElem(e: Elem) returns (u: User)
    ensures u == ReadUser(e)
  {
    var kids := ElemsOf(e.value);
    u := NEW_USER;
    var i := 0;
    while i < |kids|
      invariant 0 <= i <= |kids|
      invariant u == Foreach(UserStep, NEW_USER, kids[..i])
    {
      ForeachNext(UserStep, NEW_USER, kids, i);
      var userElem := kids[i];
      if userElem.name == INVITE_ACCEPTED {
        u := u.(status := Some(STATUS_ACCEPTED));
      } else if userElem.name == INVITE_DECLINED {
        u := u.(status := Some(STATUS_DECLINED));
      } else if userElem.name == INVITE_NORESPONSE {
        u := u.(status := Some(STATUS_NORESPONSE));
      } else if userElem.name == INVITE_INVALID {
        u := u.(status := Some(STATUS_INVALID));
      } else if userElem.name == HREF {
        u := u.(href := TextOf(userElem.value));
      } else if userElem.name == COMMON_NAME {
        u := u.(commonName := TextOf(userElem.value));
      } else if userElem.name == ACCESS {
        u := ReadAccess(u, ElemsOf(userElem.value));
      } else if userElem.name == SUMMARY {
        u := u.(summary := TextOf(userElem.value));
      }
      i := i + 1;
    }
    assert kids[..i] == kids;
  }

  /** An error, once raised, ends the loop: nothing after it changes the outcome. */
  lemma {:induction false} ErrorStays(err: Error, es: seq<Elem>)
    ensures Foreach(UsersStep, Err(err), es) == Err(err)
    decreases |es|
  {
    if es != [] {
      ErrorStays(err, es[..|es| - 1]);
    }
  }

  /**
   * `deserializeXml`: one sharee per user element, in order; any other
   * child is skipped, and a user without an invitation state raises
   * InvalidArgumentException.
   */
  method DeserializeXml(inner: Value) returns (r: Result<Invite>)
    ensures r == ReadInvite(inner)
  {
    var elems := ElemsOf(inner);
    var users: seq<User> := [];
    var i := 0;
    while i < |elems|
      invariant 0 <= i <= |elems|
      invariant ReadUsers(elems[..i]) == Ok(users)
    {
      ForeachNext(UsersStep, Ok([]), elems, i);
      var elem := elems[i];
      if elem.name == USER {
        var user := ReadUserElem(elem);
        if user.status.None? {
          ForeachAppend(UsersStep, Ok([]), elems[..i + 1], elems[i + 1..]);
          ErrorStays(InvalidArgument, elems[i + 1..]);
          assert elems[..i + 1] + elems[i + 1..] == elems;
          return Err(InvalidArgument);
        }
        users := users + [user];
      }
      i := i + 1;
    }
    assert elems[..i] == elems;
    r := Ok(Invite(users, None));
  }

  // ------------------------------------------------------------- properties

  /** Whether every user element among `es` carries an invitation state, when read with `read`. */
  predicate AllHaveStatus(read: Elem -> User, es: seq<Elem>) {
    forall i :: 0 <= i < |es| && es[i].name == USER ==> read(es[i]).status.Some?
  }

  /** The sharees `read` gives for the user elements among `es`, in order; other elements contribute nothing. */
  function UsersOf(read: Elem -> User, es: seq<Elem>): seq<User>
    decreases |es|
  {
    if es == [] then []
    else
      var last := es[|es| - 1];
      UsersOf(read, es[..|es| - 1]) + if last.name == USER then [read(last)] else []
  }

  /**
   * The deserializer keeps exactly the user elements, in order, and fails
   * with InvalidArgument iff one of them has no invitation state.
   */
  lemma {:induction false} ReadUsersMeaning(es: seq<Elem>)
    ensures ReadUsers(es) == if AllHaveStatus(ReadUser, es) then Ok(UsersOf(ReadUser, es)) else Err(InvalidArgument)
    decreases |es|
  {
    if es != [] {
      var init := es[..|es| - 1];
      var last := es[|es| - 1];
      ReadUsersMeaning(init);
      assert forall i :: 0 <= i < |init| ==> init[i] == es[i];
      assert es == init + [last];
      if !AllHaveStatus(ReadUser, init) {
        var i :| 0 <= i < |init| && init[i].name == USER && ReadUser(init[i]).status.None?;
        assert es[i] == init[i];
        ErrorStays(InvalidArgument, [last]);
      } else if last.name != USER {
        assert AllHaveStatus(ReadUser, es);
        assert UsersOf(ReadUser, es) == UsersOf(ReadUser, init) + [] == UsersOf(ReadUser, init);
        assert ReadUsers(es) == UsersStep(ReadUsers(init), last) == ReadUsers(init);
      } else if ReadUser(last).status.None? {
        assert !AllHaveStatus(ReadUser, es);
      } else {
        assert AllHaveStatus(ReadUser, es);
      }
    }
  }

  /** Children that are not user elements (such as the organizer) are ignored. */
  lemma OtherChildrenIgnored(es: seq<Elem>, e: Elem)
    requires e.name != USER
    ensures ReadUsers(es + [e]) == ReadUsers(es)
  {
    assert (es + [e])[..|es|] == es;
  }

  /** A user element has an invitation state iff it has an invite-* child. */
  lemma {:induction false} ReadUserStatus(kids: seq<Elem>)
    ensures Foreach(UserStep, NEW_USER, kids).status.Some?
        <==> exists i :: 0 <= i < |kids| && NameStatus(kids[i].name).Some?
    decreases |kids|
  {
    if kids != [] {
      var init := kids[..|kids| - 1];
      ReadUserStatus(init);
      assert forall i :: 0 <= i < |init| ==> init[i] == kids[i];
    }
  }

  /**
   * A user element is read-only iff one of its access children contains a
   * read element; otherwise readOnly stays null, never false.
   */
  lemma {:induction false} ReadUserReadOnly(kids: seq<Elem>)
    ensures Foreach(UserStep, NEW_USER, kids).readOnly
         == if exists i :: 0 <= i < |kids| && kids[i].name == ACCESS && HasRead(ElemsOf(kids[i].value))
            then Some(true) else None
    decreases |kids|
  {
    if kids != [] {
      var init := kids[..|kids| - 1];
      ReadUserReadOnly(init);
      assert forall i :: 0 <= i < |init| ==> init[i] == kids[i];
      assert NameStatus(ACCESS).None?;
    }
  }

  /** What survives writing and reading a sharee: falsy optional strings, unknown states and a false readOnly become null. */
  function Normalized(u: User): User {
    User(u.href,
         if OptTruthy(u.commonName) then u.commonName else None,
         if StatusName(u.status).Some? then u.status else None,
         if u.readOnly == Some(true) then Some(true) else None,
         if OptTruthy(u.summary) then u.summary else None)
  }

  lemma NamesDiffer()
    ensures NameStatus(HREF).None? && NameStatus(COMMON_NAME).None? && NameStatus(SUMMARY).None?
    ensures NameStatus(ACCESS).None? && HREF != COMMON_NAME && HREF != ACCESS && HREF != SUMMARY
    ensures COMMON_NAME != ACCESS && COMMON_NAME != SUMMARY && ACCESS != SUMMARY
    ensures READ_WRITE != READ && ORGANIZER != USER
  {
  }

  /** Reading a written user element gives the sharee back, normalized. */
  lemma ReadUserWritten(u: User)
    ensures ReadUser(UserElem(u)) == Normalized(u)
  {
    NamesDiffer();
    StatusNamesInverse(u.status);
    var hrefElem := Elem(HREF, [], TextOrNull(u.href));
    var cn := OptionalElem(COMMON_NAME, u.commonName);
    var st := StatusElems(u.status);
    var acc := [AccessElem(u.readOnly)];
    var sm := OptionalElem(SUMMARY, u.summary);
    ForeachAppend(UserStep, NEW_USER, [hrefElem] + cn + st + acc, sm);
    ForeachAppend(UserStep, NEW_USER, [hrefElem] + cn + st, acc);
    ForeachAppend(UserStep, NEW_USER, [hrefElem] + cn, st);
    ForeachAppend(UserStep, NEW_USER, [hrefElem], cn);
    var u1 := Foreach(UserStep, NEW_USER, [hrefElem]);
    assert [hrefElem][..0] == [];
    assert u1 == NEW_USER.(href := u.href);
    var u2 := Foreach(UserStep, u1, cn);
    if cn != [] {
      assert cn[..0] == [];
    }
    assert u2 == u1.(commonName := Normalized(u).commonName);
    var u3 := Foreach(UserStep, u2, st);
    if st != [] {
      assert st[..0] == [];
    }
    assert u3 == u2.(status := Normalized(u).status);
    var u4 := Foreach(UserStep, u3, acc);
    assert acc[..0] == [];
    var rights := ElemsOf(AccessElem(u.readOnly).value);
    assert HasRead(rights) <==> u.readOnly == Some(true) by {
      assert rights[0].name == if u.readOnly == Some(true) then READ else READ_WRITE;
    }
    assert u4 == u3.(readOnly := Normalized(u).readOnly);
    if sm != [] {
      assert sm[..0] == [];
    }
  }

  /** The organizer and every written user are trees the reader gives back unchanged. */
  lemma WrittenIsWritable(inv: Invite)
    ensures AllWritable(Written(inv))
  {
    var es := Written(inv);
    forall i | 0 <= i < |es| ensures Writable(es[i].value) {
      if inv.organizer.Some? && i == 0 {
        OrganizerKidsWritable(inv.organizer.value);
      } else {
        var u := inv.users[if inv.organizer.Some? then i - 1 else i];
        assert es[i] == UserElem(u);
        UserKidsWritable(u);
      }
    }
  }

  lemma WritableConcat(a: seq<Elem>, b: seq<Elem>)
    requires AllWritable(a) && AllWritable(b)
    ensures AllWritable(a + b)
  {
    forall i | 0 <= i < |a + b| ensures Writable((a + b)[i].value) {
      if i < |a| { assert (a + b)[i] == a[i]; } else { assert (a + b)[i] == b[i - |a|]; }
    }
  }

  lemma OrganizerKidsWritable(o: Organizer)
    ensures OrganizerKids(o) != [] && AllWritable(OrganizerKids(o))
  {
    var h := [Elem(HREF, [], Text(o.href))];
    WritableConcat(h, OptionalElem(COMMON_NAME, o.commonName));
    WritableConcat(h + OptionalElem(COMMON_NAME, o.commonName), OptionalElem(FIRST_NAME, o.firstName));
    WritableConcat(h + OptionalElem(COMMON_NAME, o.commonName) + OptionalElem(FIRST_NAME, o.firstName), OptionalElem(LAST_NAME, o.lastName));
  }

  lemma UserKidsWritable(u: User)
    ensures UserKids(u) != [] && AllWritable(UserKids(u))
  {
    var a := [Elem(HREF, [], TextOrNull(u.href))] + OptionalElem(COMMON_NAME, u.commonName);
    WritableConcat([Elem(HREF, [], TextOrNull(u.href))], OptionalElem(COMMON_NAME, u.commonName));
    WritableConcat(a, StatusElems(u.status));
    assert Writable(AccessElem(u.readOnly).value);
    WritableConcat(a + StatusElems(u.status), [AccessElem(u.readOnly)]);
    WritableConcat(a + StatusElems(u.status) + [AccessElem(u.readOnly)], OptionalElem(SUMMARY, u.summary));
  }

  function NormalizedAll(users: seq<User>): (r: seq<User>)
    ensures |r| == |users|
  {
    seq(|users|, i requires 0 <= i < |users| => Normalized(users[i]))
  }

  /** `read` applied to the written element of each user, in order. */
  function ReadAll(read: Elem -> User, users: seq<User>): (r: seq<User>)
    ensures |r| == |users|
    decreases |users|
  {
    if users == [] then [] else ReadAll(read, users[..|users| - 1]) + [read(UserElem(users[|users| - 1]))]
  }

  /** Behind at most one non-user element, the written users are read one by one, in order. */
  lemma {:induction false} UsersOfWritten(read: Elem -> User, head: seq<Elem>, users: seq<User>)
    requires |head| <= 1 && (head != [] ==> head[0].name != USER)
    ensures UsersOf(read, head + UserElems(users)) == ReadAll(read, users)
    decreases |users|
  {
    var es := head + UserElems(users);
    if users == [] {
      assert es == head;
      if head != [] {
        assert head[..0] == [];
      }
    } else {
      var init := users[..|users| - 1];
      UsersOfWritten(read, head, init);
      assert es[..|es| - 1] == head + UserElems(init);
    }
  }

  /** Each written user reads back normalized. */
  lemma {:induction false} ReadAllWritten(users: seq<User>)
    ensures ReadAll(ReadUser, users) == NormalizedAll(users)
    decreases |users|
  {
    if users != [] {
      var init := users[..|users| - 1];
      var u := users[|users| - 1];
      ReadAllWritten(init);
      ReadUserWritten(u);
      assert ReadAll(ReadUser, users) == ReadAll(ReadUser, init) + [ReadUser(UserElem(u))];
      NormalizedAllSnoc(users);
    }
  }

  lemma NormalizedAllSnoc(users: seq<User>)
    requires users != []
    ensures NormalizedAll(users) == NormalizedAll(users[..|users| - 1]) + [Normalized(users[|users| - 1])]
  {
    var init := users[..|users| - 1];
    assert forall i :: 0 <= i < |init| ==> NormalizedAll(users)[i] == NormalizedAll(init)[i];
  }

  /** A written user has a state after reading iff its state is a known one. */
  lemma KnownStatusWritten(users: seq<User>)
    ensures (forall i :: 0 <= i < |users| ==> ReadUser(UserElem(users[i])).status.Some?)
        <==> forall i :: 0 <= i < |users| ==> StatusName(users[i].status).Some?
  {
    forall i | 0 <= i < |users|
      ensures ReadUser(UserElem(users[i])).status.Some? <==> StatusName(users[i].status).Some?
    {
      ReadUserWritten(users[i]);
      StatusNamesInverse(users[i].status);
    }
  }

  /** The written users all carry a state iff each one read does. */
  lemma StatusOfWritten(read: Elem -> User, head: seq<Elem>, users: seq<User>)
    requires |head| <= 1 && (head != [] ==> head[0].name != USER)
    ensures AllHaveStatus(read, head + UserElems(users))
        <==> forall i :: 0 <= i < |users| ==> read(UserElem(users[i])).status.Some?
  {
    var es := head + UserElems(users);
    if AllHaveStatus(read, es) {
      forall i | 0 <= i < |users| ensures read(UserElem(users[i])).status.Some? {
        WrittenUserAt(head, users, |head| + i);
      }
    } else {
      var i :| 0 <= i < |es| && es[i].name == USER && read(es[i]).status.None?;
      WrittenUserAt(head, users, i);
    }
  }

  /** Behind at most one non-user element, the user elements are exactly the written users. */
  lemma WrittenUserAt(head: seq<Elem>, users: seq<User>, i: nat)
    requires |head| <= 1 && (head != [] ==> head[0].name != USER)
    requires i < |head| + |users|
    ensures (head + UserElems(users))[i].name == USER <==> i >= |head|
    ensures i >= |head| ==> (head + UserElems(users))[i] == UserElem(users[i - |head|])
  {
    if i >= |head| {
      assert (head + UserElems(users))[i] == UserElems(users)[i - |head|];
    } else {
      assert (head + UserElems(users))[i] == head[i];
    }
  }

  /**
   * Round trip: reading what `serializeXml` wrote gives back the users,
   * normalized, and no organizer; it fails with InvalidArgument iff some
   * user has no known invitation state.
   */
  lemma RoundTrip(inv: Invite)
    ensures ReadUsers(ReadViews(Written(inv), {}))
         == if forall i :: 0 <= i < |inv.users| ==> StatusName(inv.users[i].status).Some?
            then Ok(NormalizedAll(inv.users))
            else Err(InvalidArgument)
  {
    WrittenIsWritable(inv);
    ReadViewsPlain(Written(inv));
    ReadUsersMeaning(Written(inv));
    var head := if inv.organizer.Some? then [Elem(ORGANIZER, [], Items(OrganizerKids(inv.organizer.value)))] else [];
    UsersOfWritten(ReadUser, head, inv.users);
    StatusOfWritten(ReadUser, head, inv.users);
    ReadAllWritten(inv.users);
    KnownStatusWritten(inv.users);
  }
}
