/**
 * The PDO-backed CardDAV storage: three tables (address books, cards and
 * the change ledger behind sync-collection, RFC 6578 section 3.2) held in
 * memory as sequences of rows in insertion order. Every address book
 * carries a sync token that starts at 1; each change to the book logs the
 * current token with the changed URI and an operation code, then advances
 * the token by one. A client that holds a token asks for the changes since
 * then and gets each URI once, in the bucket of its last operation.
 */
module CardDavPdo {
  import opened Php

  const DISPLAY_NAME: string := "{DAV:}displayname"
  const DESCRIPTION: string := "{urn:ietf:params:xml:ns:carddav}addressbook-description"

  /** Operation codes of the change ledger. */
  const ADDED: int := 1
  const MODIFIED: int := 2
  const DELETED: int := 3

  /** A row of the address-book table; its id is the key it is stored under. */
  datatype Book = Book(
    uri: string,
    displayName: Option<string>,
    description: Option<string>,
    principalUri: string,
    syncToken: int)

  datatype Card = Card(id: nat, bookId: nat, uri: string, data: string, lastModified: int)

  datatype Change = Change(id: nat, uri: string, syncToken: int, bookId: nat, operation: int)

  datatype ChangeSet = ChangeSet(syncToken: int, added: seq<string>, modified: seq<string>, deleted: seq<string>)

  // ------------------------------------------------------ the ledger invariant

  /** Within one address book, later change rows carry larger tokens. */
  ghost predicate PerBookOrdered(changes: seq<Change>) {
    forall i, j :: 0 <= i < j < |changes| && changes[i].bookId == changes[j].bookId ==>
      changes[i].syncToken < changes[j].syncToken
  }

  /**
   * What the backend's own writes keep true: tokens are positive, no id is
   * above the last one handed out, a book's change rows are in token order
   * and all below the book's current token.
   */
  ghost predicate Ledger(books: map<nat, Book>, changes: seq<Change>, lastBookId: nat) {
    && (forall id :: id in books ==> 1 <= books[id].syncToken && id <= lastBookId)
    && (forall i :: 0 <= i < |changes| ==> changes[i].bookId <= lastBookId)
    && PerBookOrdered(changes)
    && (forall i :: 0 <= i < |changes| && changes[i].bookId in books ==>
          changes[i].syncToken < books[changes[i].bookId].syncToken)
  }

  // ------------------------------------------------------------ the statements

  /** The corrected reading of `SELECT synctoken FROM addressbooks WHERE id = ?`: absent when no row. */
  function CurrentToken(books: map<nat, Book>, id: nat): Option<int> {
    if id in books then Some(books[id].syncToken) else None
  }

  /** `UPDATE addressbooks SET synctoken = synctoken + 1 WHERE id = ?`. */
  function Bumped(books: map<nat, Book>, id: nat): map<nat, Book> {
    if id in books then books[id := books[id].(syncToken := books[id].syncToken + 1)] else books
  }

  /** The rows `INSERT INTO addressbookchanges ... SELECT ... FROM addressbooks WHERE id = ?` adds. */
  function Logged(books: map<nat, Book>, id: nat, uri: string, op: int, rowId: nat): seq<Change> {
    if id in books then [Change(rowId, uri, books[id].syncToken, id, op)] else []
  }

  /**
   * The UPDATE of `updateAddressBook`: columns given as `Some(v)` are set to
   * `v` on the book's row; columns given as `None` are not in the SET list.
   */
  function Renamed(books: map<nat, Book>, id: nat, displayName: Option<Option<string>>, description: Option<Option<string>>): map<nat, Book> {
    if id !in books then books
    else
      var b := books[id];
      books[id := b.(displayName := if displayName.Some? then displayName.value else b.displayName,
                     description := if description.Some? then description.value else b.description)]
  }

  /** `DELETE FROM cards WHERE addressbookid = ?`. */
  function CardsOutside(cards: seq<Card>, bookId: nat): (r: seq<Card>)
    ensures forall c :: c in r <==> c in cards && c.bookId != bookId
    decreases |cards|
  {
    if cards == [] then []
    else
      var rest := CardsOutside(cards[..|cards| - 1], bookId);
      var last := cards[|cards| - 1];
      assert cards == cards[..|cards| - 1] + [last];
      if last.bookId == bookId then rest else rest + [last]
  }

  /** The number of cards of the book stored under this URI. */
  function MatchCount(cards: seq<Card>, bookId: nat, uri: string): nat
    decreases |cards|
  {
    if cards == [] then 0
    else
      var last := cards[|cards| - 1];
      MatchCount(cards[..|cards| - 1], bookId, uri) + if last.bookId == bookId && last.uri == uri then 1 else 0
  }

  /** `DELETE FROM cards WHERE addressbookid = ? AND uri = ?`: exactly the matching rows go. */
  function CardsWithout(cards: seq<Card>, bookId: nat, uri: string): (r: seq<Card>)
    ensures forall c :: c in r <==> c in cards && !(c.bookId == bookId && c.uri == uri)
    ensures |r| + MatchCount(cards, bookId, uri) == |cards|
    decreases |cards|
  {
    if cards == [] then []
    else
      var rest := CardsWithout(cards[..|cards| - 1], bookId, uri);
      var last := cards[|cards| - 1];
      assert cards == cards[..|cards| - 1] + [last];
      if last.bookId == bookId && last.uri == uri then rest else rest + [last]
  }

  /** `UPDATE cards SET carddata = ?, lastmodified = ? WHERE uri = ? AND addressbookid = ?`. */
  function CardsUpdated(cards: seq<Card>, bookId: nat, uri: string, data: string, now: int): (r: seq<Card>)
    ensures |r| == |cards|
    ensures forall k :: 0 <= k < |cards| ==> r[k].id == cards[k].id && r[k].bookId == cards[k].bookId && r[k].uri == cards[k].uri
    ensures forall k :: 0 <= k < |cards| && cards[k].bookId == bookId && cards[k].uri == uri ==> r[k].data == data && r[k].lastModified == now
    ensures forall k :: 0 <= k < |cards| && !(cards[k].bookId == bookId && cards[k].uri == uri) ==> r[k] == cards[k]
  {
    seq(|cards|, k requires 0 <= k < |cards| =>
      if cards[k].bookId == bookId && cards[k].uri == uri then cards[k].(data := data, lastModified := now) else cards[k])
  }

  /** `DELETE FROM addressbookchanges WHERE id = ?`: rows go by their own row id. */
  function ChangesWithoutRow(changes: seq<Change>, id: nat): (r: seq<Change>)
    ensures forall c :: c in r <==> c in changes && c.id != id
    decreases |changes|
  {
    if changes == [] then []
    else
      var rest := ChangesWithoutRow(changes[..|changes| - 1], id);
      var last := changes[|changes| - 1];
      assert changes == changes[..|changes| - 1] + [last];
      if last.id == id then rest else rest + [last]
  }

  /** `SELECT ... FROM cards WHERE addressbookid = ?`, in table order. */
  function CardsOf(cards: seq<Card>, bookId: nat): (r: seq<Card>)
    ensures forall c :: c in r <==> c in cards && c.bookId == bookId
    decreases |cards|
  {
    if cards == [] then []
    else
      var rest := CardsOf(cards[..|cards| - 1], bookId);
      var last := cards[|cards| - 1];
      assert cards == cards[..|cards| - 1] + [last];
      if last.bookId == bookId then rest + [last] else rest
  }

  /** `SELECT uri FROM cards WHERE addressbookid = ?` fetched as one column. */
  function CardUris(cards: seq<Card>, bookId: nat): (r: seq<string>)
    ensures forall u :: u in r <==> exists c :: c in cards && c.bookId == bookId && c.uri == u
  {
    var own := CardsOf(cards, bookId);
    var r := seq(|own|, i requires 0 <= i < |own| => own[i].uri);
    assert forall c :: c in own ==> c.uri in r by {
      forall c | c in own
        ensures c.uri in r
      {
        var i :| 0 <= i < |own| && own[i] == c;
        assert r[i] == c.uri;
      }
    }
    r
  }

  /** `SELECT ... FROM cards WHERE addressbookid = ? AND uri = ? LIMIT 1`: the first matching row, or false. */
  function FirstCard(cards: seq<Card>, bookId: nat, uri: string): (r: Option<Card>)
    ensures r.Some? ==> r.value in cards && r.value.bookId == bookId && r.value.uri == uri
    ensures r.None? <==> MatchCount(cards, bookId, uri) == 0
    decreases |cards|
  {
    if cards == [] then None
    else if cards[0].bookId == bookId && cards[0].uri == uri then
      MatchCountCons(cards, bookId, uri);
      Some(cards[0])
    else
      MatchCountCons(cards, bookId, uri);
      FirstCard(cards[1..], bookId, uri)
  }

  lemma {:induction false} MatchCountCons(cards: seq<Card>, bookId: nat, uri: string)
    requires cards != []
    ensures MatchCount(cards, bookId, uri) ==
      MatchCount(cards[1..], bookId, uri) + if cards[0].bookId == bookId && cards[0].uri == uri then 1 else 0
    decreases |cards|
  {
    if |cards| > 1 {
      var n := |cards|;
      assert cards[1..][..n - 2] == cards[..n - 1][1..];
      assert cards[1..][n - 2] == cards[n - 1];
      MatchCountCons(cards[..n - 1], bookId, uri);
    }
  }

  /** `getMultipleCards`: `getCard` for every requested URI, in request order. */
  function MultipleCards(cards: seq<Card>, bookId: nat, uris: seq<string>): (r: seq<Option<Card>>)
    ensures |r| == |uris|
    ensures forall i :: 0 <= i < |uris| && r[i].Some? ==> r[i].value in cards && r[i].value.bookId == bookId && r[i].value.uri == uris[i]
    ensures forall i :: 0 <= i < |uris| ==> (r[i].None? <==> MatchCount(cards, bookId, uris[i]) == 0)
  {
    seq(|uris|, i requires 0 <= i < |uris| => FirstCard(cards, bookId, uris[i]))
  }

  /** `SELECT ... FROM addressbooks WHERE principaluri = ?`, keyed by id. */
  function BooksOf(books: map<nat, Book>, principalUri: string): (r: map<nat, Book>)
    ensures forall id :: id in r <==> id in books && books[id].principalUri == principalUri
    ensures forall id :: id in r ==> r[id] == books[id]
  {
    map id | id in books && books[id].principalUri == principalUri :: books[id]
  }

  /** The ETag createCard and updateCard return: the hash of the data inside literal double quotes. */
  function Quoted(hash: string): (r: string)
    ensures |r| == |hash| + 2 && r[0] == '"' && r[|r| - 1] == '"' && r[1..|r| - 1] == hash
  {
    "\"" + hash + "\""
  }

  // ------------------------------------------------------------ property lists

  /**
   * The foreach of `createAddressBook`: the display name and description
   * given, or `unknown` when some other property is present.
   */
  method SupportedProperties(properties: Assoc<string, string>) returns (displayName: Option<string>, description: Option<string>, unknown: bool)
    requires properties.Valid()
    ensures unknown <==> exists p :: p in properties.keys && p != DISPLAY_NAME && p != DESCRIPTION
    ensures !unknown ==> displayName == properties.Get(DISPLAY_NAME) && description == properties.Get(DESCRIPTION)
  {
    var pairs := properties.Pairs();
    displayName, description, unknown := None, None, false;
    var i := 0;
    while i < |pairs|
      invariant 0 <= i <= |pairs|
      invariant displayName == LastValue(pairs[..i], DISPLAY_NAME)
      invariant description == LastValue(pairs[..i], DESCRIPTION)
      invariant forall j :: 0 <= j < i ==> pairs[j].0 == DISPLAY_NAME || pairs[j].0 == DESCRIPTION
    {
      assert pairs[..i + 1][..i] == pairs[..i];
      if pairs[i].0 == DISPLAY_NAME {
        displayName := Some(pairs[i].1);
      } else if pairs[i].0 == DESCRIPTION {
        description := Some(pairs[i].1);
      } else {
        assert properties.keys[i] == pairs[i].0 && properties.keys[i] in properties.keys;
        return None, None, true;
      }
      i := i + 1;
    }
    assert pairs[..i] == pairs;
    properties.PairsLastValue(DISPLAY_NAME);
    properties.PairsLastValue(DESCRIPTION);
    forall p | p in properties.keys
      ensures p == DISPLAY_NAME || p == DESCRIPTION
    {
      var j :| 0 <= j < |properties.keys| && properties.keys[j] == p;
      assert pairs[j].0 == p;
    }
  }

  /** The foreach of the `updateAddressBook` callback: the new value of each column it sets. */
  method ColumnUpdates(mutations: Assoc<string, Option<string>>) returns (displayName: Option<Option<string>>, description: Option<Option<string>>)
    requires mutations.Valid()
    ensures displayName == mutations.Get(DISPLAY_NAME)
    ensures description == mutations.Get(DESCRIPTION)
  {
    var pairs := mutations.Pairs();
    displayName, description := None, None;
    var i := 0;
    while i < |pairs|
      invariant 0 <= i <= |pairs|
      invariant displayName == LastValue(pairs[..i], DISPLAY_NAME)
      invariant description == LastValue(pairs[..i], DESCRIPTION)
    {
      assert pairs[..i + 1][..i] == pairs[..i];
      if pairs[i].0 == DISPLAY_NAME {
        displayName := Some(pairs[i].1);
      } else if pairs[i].0 == DESCRIPTION {
        description := Some(pairs[i].1);
      }
      i := i + 1;
    }
    assert pairs[..i] == pairs;
    mutations.PairsLastValue(DISPLAY_NAME);
    mutations.PairsLastValue(DESCRIPTION);
  }

  // ------------------------------------------------------ the invariant's keepers

  /** Logging a change and advancing the token keeps the ledger invariant. */
  lemma LedgerAfterChange(books: map<nat, Book>, changes: seq<Change>, last: nat, id: nat, uri: string, op: int, rowId: nat)
    requires Ledger(books, changes, last)
    ensures Ledger(Bumped(books, id), changes + Logged(books, id, uri, op, rowId), last)
  {
    var changes' := changes + Logged(books, id, uri, op, rowId);
    if id in books {
      var n := |changes|;
      forall i, j | 0 <= i < j < |changes'| && changes'[i].bookId == changes'[j].bookId
        ensures changes'[i].syncToken < changes'[j].syncToken
      {
        if j == n {
          assert changes[i].bookId == id;
        }
      }
    }
  }

  /** Dropping change rows keeps the rest of a book's rows in token order. */
  lemma {:induction false} ChangesWithoutRowOrdered(changes: seq<Change>, id: nat)
    requires PerBookOrdered(changes)
    ensures PerBookOrdered(ChangesWithoutRow(changes, id))
    decreases |changes|
  {
    if changes != [] {
      var n := |changes|;
      var init := changes[..n - 1];
      var last := changes[n - 1];
      ChangesWithoutRowOrdered(init, id);
      var rest := ChangesWithoutRow(init, id);
      if last.id != id {
        AppendOrdered(init, rest, last);
      }
    }
  }

  /**
   * Appending the row that follows `init` to rows taken from `init`, in
   * order, keeps each book's rows in token order.
   */
  lemma AppendOrdered(init: seq<Change>, rest: seq<Change>, last: Change)
    requires PerBookOrdered(init + [last])
    requires PerBookOrdered(rest)
    requires forall c :: c in rest ==> c in init
    ensures PerBookOrdered(rest + [last])
  {
    var s := init + [last];
    var r := rest + [last];
    forall i, j | 0 <= i < j < |r| && r[i].bookId == r[j].bookId
      ensures r[i].syncToken < r[j].syncToken
    {
      if j < |rest| {
        assert r[i] == rest[i] && r[j] == rest[j];
      } else {
        assert r[i] == rest[i] && r[j] == last;
        assert rest[i] in init;
        var i' :| 0 <= i' < |init| && init[i'] == rest[i];
        assert s[i'] == rest[i] && s[|init|] == last;
      }
    }
  }

  /** Deleting an address book (with the quirky change-row delete) keeps the ledger invariant. */
  lemma LedgerAfterDelete(books: map<nat, Book>, changes: seq<Change>, last: nat, id: nat)
    requires Ledger(books, changes, last)
    ensures Ledger(books - {id}, ChangesWithoutRow(changes, id), last)
  {
    ChangesWithoutRowOrdered(changes, id);
    var changes' := ChangesWithoutRow(changes, id);
    forall i | 0 <= i < |changes'|
      ensures changes'[i].bookId <= last
      ensures changes'[i].bookId in books - {id} ==> changes'[i].syncToken < books[changes'[i].bookId].syncToken
    {
      assert changes'[i] in changes;
    }
  }

  /** A new book takes the next id and starts at token 1; the ledger invariant survives. */
  lemma LedgerAfterCreate(books: map<nat, Book>, changes: seq<Change>, last: nat, b: Book)
    requires Ledger(books, changes, last)
    requires b.syncToken == 1
    ensures last + 1 !in books
    ensures Ledger(books[last + 1 := b], changes, last + 1)
  {
  }

  /**
   * After a change is logged at token `t`, the window `[t, t + 1)` of that
   * book holds exactly the new row: a client that last saw token `t` is
   * shown this change and nothing older.
   */
  lemma LatestChangeWindow(books: map<nat, Book>, changes: seq<Change>, last: nat, id: nat, uri: string, op: int, rowId: nat)
    requires Ledger(books, changes, last)
    requires CurrentToken(books, id).Some?
    ensures var t := CurrentToken(books, id).value;
      Window(changes + Logged(books, id, uri, op, rowId), id, t, t + 1) == [Change(rowId, uri, t, id, op)]
  {
    var t := CurrentToken(books, id).value;
    var c := Change(rowId, uri, t, id, op);
    WindowSnoc(changes, c, id, t, t + 1);
    WindowEmpty(changes, id, t, t + 1);
  }

  lemma {:induction false} WindowSnoc(changes: seq<Change>, c: Change, bookId: nat, since: int, current: int)
    ensures Window(changes + [c], bookId, since, current) ==
      Window(changes, bookId, since, current) + if c.bookId == bookId && since <= c.syncToken < current then [c] else []
  {
    var s := changes + [c];
    assert s[..|s| - 1] == changes;
  }

  lemma WindowEmpty(changes: seq<Change>, bookId: nat, since: int, current: int)
    requires forall i :: 0 <= i < |changes| && changes[i].bookId == bookId ==> changes[i].syncToken < since
    ensures Window(changes, bookId, since, current) == []
  {
  }

  // ------------------------------------------------------- reading the changes

  /**
   * `WHERE synctoken >= ? AND synctoken < ? AND addressbookid = ?`, in
   * table order. Under the ledger invariant table order is token order, so
   * this is also the `ORDER BY synctoken` order (WindowInTokenOrder).
   */
  function Window(changes: seq<Change>, bookId: nat, since: int, current: int): (r: seq<Change>)
    ensures forall c :: c in r <==> c in changes && c.bookId == bookId && since <= c.syncToken < current
    ensures |r| <= |changes|
    decreases |changes|
  {
    if changes == [] then []
    else
      var rest := Window(changes[..|changes| - 1], bookId, since, current);
      var last := changes[|changes| - 1];
      assert changes == changes[..|changes| - 1] + [last];
      if last.bookId == bookId && since <= last.syncToken < current then rest + [last] else rest
  }

  /** Under the ledger invariant the window's rows come out with strictly increasing tokens. */
  lemma {:induction false} WindowInTokenOrder(changes: seq<Change>, bookId: nat, since: int, current: int)
    requires PerBookOrdered(changes)
    ensures forall i, j :: 0 <= i < j < |Window(changes, bookId, since, current)| ==>
      Window(changes, bookId, since, current)[i].syncToken < Window(changes, bookId, since, current)[j].syncToken
    decreases |changes|
  {
    WindowOrdered(changes, bookId, since, current);
    var w := Window(changes, bookId, since, current);
    forall i, j | 0 <= i < j < |w|
      ensures w[i].syncToken < w[j].syncToken
    {
      assert w[i] in w && w[j] in w;
    }
  }

  lemma {:induction false} WindowOrdered(changes: seq<Change>, bookId: nat, since: int, current: int)
    requires PerBookOrdered(changes)
    ensures PerBookOrdered(Window(changes, bookId, since, current))
    decreases |changes|
  {
    if changes != [] {
      var n := |changes|;
      var init := changes[..n - 1];
      var last := changes[n - 1];
      WindowOrdered(init, bookId, since, current);
      var rest := Window(init, bookId, since, current);
      if last.bookId == bookId && since <= last.syncToken < current {
        AppendOrdered(init, rest, last);
      }
    }
  }

  /** `if ($limit > 0) $query .= " LIMIT " . (int)$limit;`. */
  function Limited(rows: seq<Change>, limit: Option<int>): (r: seq<Change>)
    ensures limit.Some? && limit.value > 0 ==> |r| == if limit.value < |rows| then limit.value else |rows|
    ensures !(limit.Some? && limit.value > 0) ==> r == rows
    ensures r <= rows
  {
    if limit.Some? && limit.value > 0 && limit.value < |rows| then rows[..limit.value] else rows
  }

  /** The `(uri, operation)` pairs the while loop assigns, in row order. */
  function UriOps(rows: seq<Change>): (r: seq<(string, int)>)
    ensures |r| == |rows|
    decreases |rows|
  {
    if rows == [] then []
    else UriOps(rows[..|rows| - 1]) + [(rows[|rows| - 1].uri, rows[|rows| - 1].operation)]
  }

  /** `$changes[$row['uri']] = $row['operation'];` over all rows: one entry per URI. */
  function Collapse(rows: seq<Change>): (r: Assoc<string, int>)
    ensures r.Valid()
  {
    PutAll(EmptyAssoc(), UriOps(rows))
  }

  /** The URIs whose operation is `op`, in the order `foreach` visits them. */
  function Bucket(pairs: seq<(string, int)>, op: int): (r: seq<string>)
    ensures forall u :: u in r <==> (u, op) in pairs
    ensures (forall i, j :: 0 <= i < j < |pairs| ==> pairs[i].0 != pairs[j].0) ==>
      forall i, j :: 0 <= i < j < |r| ==> r[i] != r[j]
    decreases |pairs|
  {
    if pairs == [] then []
    else
      var init := pairs[..|pairs| - 1];
      var last := pairs[|pairs| - 1];
      assert pairs == init + [last];
      assert (forall i, j :: 0 <= i < j < |pairs| ==> pairs[i].0 != pairs[j].0) ==>
        forall p :: p in init ==> p.0 != last.0;
      Bucket(init, op) + if last.1 == op then [last.0] else []
  }

  /** The change set for the window's rows: each URI under its last operation. */
  function ChangesFrom(rows: seq<Change>, current: int): ChangeSet {
    var pairs := Collapse(rows).Pairs();
    ChangeSet(current, Bucket(pairs, ADDED), Bucket(pairs, MODIFIED), Bucket(pairs, DELETED))
  }

  /**
   * The token number the window query compares against. The client's token
   * is a string; a digit string is read as its value, anything else as 0.
   */
  function SinceOf(syncToken: string): (r: int)
    ensures r >= 0
    ensures IsDigits(syncToken) ==> r == IntCast(syncToken)
  {
    if IsDigits(syncToken) then IntCast(syncToken) else 0
  }

  /** The rows the window query reads for a client token and limit. */
  function ReadRows(changes: seq<Change>, bookId: nat, syncToken: string, current: int, limit: Option<int>): seq<Change> {
    Limited(Window(changes, bookId, SinceOf(syncToken), current), limit)
  }

  /** The corrected `getChangesForAddressBook`: absent for an unknown book. */
  function ChangesSince(books: map<nat, Book>, cards: seq<Card>, changes: seq<Change>, bookId: nat, syncToken: string, limit: Option<int>): Option<ChangeSet> {
    match CurrentToken(books, bookId)
    case None => None
    case Some(current) =>
      if Truthy(syncToken) then Some(ChangesFrom(ReadRows(changes, bookId, syncToken, current, limit), current))
      else Some(ChangeSet(current, CardUris(cards, bookId), [], []))
  }

  /** The while loop over the fetched rows. */
  method CollapseRows(rows: seq<Change>) returns (changes: Assoc<string, int>)
    ensures changes == Collapse(rows)
  {
    changes := EmptyAssoc();
    var i := 0;
    while i < |rows|
      invariant 0 <= i <= |rows|
      invariant changes == PutAll(EmptyAssoc(), UriOps(rows[..i]))
    {
      CollapseNext(rows, i, changes);
      changes := changes.Put(rows[i].uri, rows[i].operation);
      i := i + 1;
    }
    assert rows[..i] == rows;
  }

  lemma CollapseNext(rows: seq<Change>, i: nat, changes: Assoc<string, int>)
    requires i < |rows|
    requires changes == PutAll(EmptyAssoc(), UriOps(rows[..i]))
    ensures changes.Put(rows[i].uri, rows[i].operation) == PutAll(EmptyAssoc(), UriOps(rows[..i + 1]))
  {
    assert rows[..i + 1][..i] == rows[..i];
    PutAllSnoc(EmptyAssoc(), UriOps(rows[..i]), rows[i].uri, rows[i].operation);
  }

  /** The foreach with its switch on the operation; other codes are skipped. */
  method SplitByOperation(pairs: seq<(string, int)>) returns (added: seq<string>, modified: seq<string>, deleted: seq<string>)
    ensures added == Bucket(pairs, ADDED)
    ensures modified == Bucket(pairs, MODIFIED)
    ensures deleted == Bucket(pairs, DELETED)
  {
    added, modified, deleted := [], [], [];
    var i := 0;
    while i < |pairs|
      invariant 0 <= i <= |pairs|
      invariant added == Bucket(pairs[..i], ADDED)
      invariant modified == Bucket(pairs[..i], MODIFIED)
      invariant deleted == Bucket(pairs[..i], DELETED)
    {
      BucketNext(pairs, i, ADDED);
      BucketNext(pairs, i, MODIFIED);
      BucketNext(pairs, i, DELETED);
      if pairs[i].1 == ADDED {
        added := added + [pairs[i].0];
      } else if pairs[i].1 == MODIFIED {
        modified := modified + [pairs[i].0];
      } else if pairs[i].1 == DELETED {
        deleted := deleted + [pairs[i].0];
      }
      i := i + 1;
    }
    assert pairs[..i] == pairs;
  }

  lemma BucketNext(pairs: seq<(string, int)>, i: nat, op: int)
    requires i < |pairs|
    ensures Bucket(pairs[..i + 1], op) == Bucket(pairs[..i], op) + if pairs[i].1 == op then [pairs[i].0] else []
  {
    assert pairs[..i + 1][..i] == pairs[..i];
  }

  // ------------------------------------------------------ what a client is told

  /**
   * With a token, a URI is reported under an operation iff the last row read
   * for it carries that operation: the last change wins, and a URI lands in
   * at most one bucket, at most once.
   */
  lemma LastOperationWins(rows: seq<Change>, current: int, uri: string)
    ensures var cs := ChangesFrom(rows, current);
      && (uri in cs.added <==> LastValue(UriOps(rows), uri) == Some(ADDED))
      && (uri in cs.modified <==> LastValue(UriOps(rows), uri) == Some(MODIFIED))
      && (uri in cs.deleted <==> LastValue(UriOps(rows), uri) == Some(DELETED))
  {
    var a := Collapse(rows);
    PutAllLastWins(EmptyAssoc(), UriOps(rows), uri);
    if uri in a.vals {
      a.PairsHas(uri, a.vals[uri]);
    }
    a.PairsHas(uri, ADDED);
    a.PairsHas(uri, MODIFIED);
    a.PairsHas(uri, DELETED);
  }

  /** Each bucket lists a URI at most once. */
  lemma BucketsDistinct(rows: seq<Change>, current: int)
    ensures var cs := ChangesFrom(rows, current);
      && (forall i, j :: 0 <= i < j < |cs.added| ==> cs.added[i] != cs.added[j])
      && (forall i, j :: 0 <= i < j < |cs.modified| ==> cs.modified[i] != cs.modified[j])
      && (forall i, j :: 0 <= i < j < |cs.deleted| ==> cs.deleted[i] != cs.deleted[j])
  {
    var a := Collapse(rows);
    var p := a.Pairs();
    forall i, j | 0 <= i < j < |p|
      ensures p[i].0 != p[j].0
    {
      assert p[i].0 == a.keys[i] && p[j].0 == a.keys[j];
    }
  }

  /**
   * The rows read with a token all belong to the book, lie in
   * `[since, current)`, come out in strictly increasing token order, number
   * at most `limit` when a positive limit is given, and without a limit
   * include every such row of the ledger.
   */
  lemma WindowShape(books: map<nat, Book>, changes: seq<Change>, last: nat, bookId: nat, syncToken: string, current: int, limit: Option<int>)
    requires Ledger(books, changes, last)
    ensures var rows := ReadRows(changes, bookId, syncToken, current, limit);
      && (forall c :: c in rows ==> c in changes && c.bookId == bookId && SinceOf(syncToken) <= c.syncToken < current)
      && (forall i, j :: 0 <= i < j < |rows| ==> rows[i].syncToken < rows[j].syncToken)
      && (limit.Some? && limit.value > 0 ==> |rows| <= limit.value)
      && (!(limit.Some? && limit.value > 0) ==>
            forall c :: c in changes && c.bookId == bookId && SinceOf(syncToken) <= c.syncToken < current ==> c in rows)
  {
    var w := Window(changes, bookId, SinceOf(syncToken), current);
    WindowInTokenOrder(changes, bookId, SinceOf(syncToken), current);
    var rows := Limited(w, limit);
    forall c | c in rows
      ensures c in w
    {
      var i :| 0 <= i < |rows| && rows[i] == c;
      assert w[i] == c;
    }
    assert rows <= w;
    forall i, j | 0 <= i < j < |rows|
      ensures rows[i].syncToken < rows[j].syncToken
    {
      assert j < |w| && rows[i] == w[i] && rows[j] == w[j];
      assert w[i].syncToken < w[j].syncToken;
    }
  }

  /** Without a token the client is told every card of the book as added, and nothing else. */
  lemma InitialSyncListsAllCards(books: map<nat, Book>, cards: seq<Card>, changes: seq<Change>, bookId: nat, syncToken: string, limit: Option<int>, uri: string)
    requires !Truthy(syncToken)
    requires CurrentToken(books, bookId).Some?
    ensures var r := ChangesSince(books, cards, changes, bookId, syncToken, limit);
      && r.Some? && r.value.syncToken == CurrentToken(books, bookId).value
      && r.value.modified == [] && r.value.deleted == []
      && (uri in r.value.added <==> exists c :: c in cards && c.bookId == bookId && c.uri == uri)
  {
  }

  /** The change set carries the book's current token, and is absent exactly when the book is. */
  lemma ChangesCarryCurrentToken(books: map<nat, Book>, cards: seq<Card>, changes: seq<Change>, bookId: nat, syncToken: string, limit: Option<int>)
    ensures var r := ChangesSince(books, cards, changes, bookId, syncToken, limit);
      && (r.None? <==> bookId !in books)
      && (r.Some? ==> r.value.syncToken == books[bookId].syncToken)
  {
  }

  // ------------------------------------------------------ the missing-book finding

  /**
   * What `PDOStatement::fetchColumn(0)` yields: the column's value (which
   * the schema would allow to be NULL), or `false` when no row matched.
   */
  datatype Fetched = Column(token: int) | NullColumn | FalseValue

  function FetchToken(books: map<nat, Book>, id: nat): (r: Fetched)
    ensures r.FalseValue? <==> id !in books
    ensures r.Column? ==> r.token == books[id].syncToken
  {
    if id in books then Column(books[id].syncToken) else FalseValue
  }

  /** The check as written: `is_null($currentToken)`, which `false` does not satisfy. */
  predicate ReturnsNullAsWritten(fetched: Fetched) {
    fetched.NullColumn?
  }

  /** A change set as the method builds it, whose token is whatever `fetchColumn(0)` yielded. */
  datatype FetchedChangeSet = FetchedChangeSet(syncToken: Fetched, added: seq<string>, modified: seq<string>, deleted: seq<string>)

  /**
   * `getChangesForAddressBook` as written. The upper bound of the window
   * query is bound to the fetched token; `false` is taken to compare as 0.
   */
  function ChangesSinceAsWritten(books: map<nat, Book>, cards: seq<Card>, changes: seq<Change>, bookId: nat, syncToken: string, limit: Option<int>): Option<FetchedChangeSet> {
    var fetched := FetchToken(books, bookId);
    if ReturnsNullAsWritten(fetched) then None
    else
      var current := if fetched.Column? then fetched.token else 0;
      if Truthy(syncToken) then
        var cs := ChangesFrom(ReadRows(changes, bookId, syncToken, current, limit), current);
        Some(FetchedChangeSet(fetched, cs.added, cs.modified, cs.deleted))
      else Some(FetchedChangeSet(fetched, CardUris(cards, bookId), [], []))
  }

  /** For a book that exists, the as-written method and the corrected one agree. */
  lemma AsWrittenAgreesOnExistingBooks(books: map<nat, Book>, cards: seq<Card>, changes: seq<Change>, bookId: nat, syncToken: string, limit: Option<int>)
    requires bookId in books
    ensures var w := ChangesSinceAsWritten(books, cards, changes, bookId, syncToken, limit);
            var c := ChangesSince(books, cards, changes, bookId, syncToken, limit);
      && w.Some? && c.Some?
      && w.value.syncToken == Column(c.value.syncToken)
      && w.value.added == c.value.added && w.value.modified == c.value.modified && w.value.deleted == c.value.deleted
  {
  }

  /**
   * For an address book that does not exist the as-written method answers
   * with a change set whose token is `false` (never null), where the
   * corrected model answers null.
   */
  lemma MissingBookReported(books: map<nat, Book>, cards: seq<Card>, changes: seq<Change>, bookId: nat, syncToken: string, limit: Option<int>)
    requires bookId !in books
    ensures var w := ChangesSinceAsWritten(books, cards, changes, bookId, syncToken, limit);
      w.Some? && w.value.syncToken == FalseValue
    ensures ChangesSince(books, cards, changes, bookId, syncToken, limit).None?
  {
  }

  /**
   * The concrete case: address book 7 in an empty database. As written the
   * result is token `false` with empty lists; corrected, it is null.
   */
  lemma MissingBookNotDetected()
    ensures FetchToken(map[], 7) == FalseValue
    ensures !ReturnsNullAsWritten(FetchToken(map[], 7))
    ensures ChangesSinceAsWritten(map[], [], [], 7, "", None) == Some(FetchedChangeSet(FalseValue, [], [], []))
    ensures ChangesSince(map[], [], [], 7, "", None) == None
  {
    assert CardUris([], 7) == [];
  }

  // ----------------------------------------------------------------- the backend

  /** The three tables and the last AUTO_INCREMENT value handed out by each. */
  datatype Database = Database(
    books: map<nat, Book>,
    cards: seq<Card>,
    changes: seq<Change>,
    lastBookId: nat,
    lastCardId: nat,
    lastChangeId: nat)

  /**
   * The backend: its PDO connection is modelled as the database it reaches,
   * a field every writing method reassigns.
   */
  class Backend {
    var db: Database
    /** PHP's `md5`, which the model does not compute. */
    const md5: string -> string

    ghost predicate Valid()
      reads this
    {
      Ledger(db.books, db.changes, db.lastBookId)
    }

    constructor(md5: string -> string)
      ensures Valid()
      ensures db == Database(map[], [], [], 0, 0, 0)
      ensures this.md5 == md5
    {
      db := Database(map[], [], [], 0, 0, 0);
      this.md5 := md5;
    }

    /** Logs `(uri, current token, op)` for an existing book, then advances its token. */
    method AddChange(bookId: nat, uri: string, op: int)
      requires Valid()
      modifies this
      ensures Valid()
      ensures var logged := Logged(old(db).books, bookId, uri, op, old(db).lastChangeId + 1);
        db == old(db).(
          books := Bumped(old(db).books, bookId),
          changes := old(db).changes + logged,
          lastChangeId := old(db).lastChangeId + |logged|)
    {
      LedgerAfterChange(db.books, db.changes, db.lastBookId, bookId, uri, op, db.lastChangeId + 1);
      var logged := Logged(db.books, bookId, uri, op, db.lastChangeId + 1);
      db := db.(changes := db.changes + logged, lastChangeId := db.lastChangeId + |logged|);
      db := db.(books := Bumped(db.books, bookId));
    }

    /**
     * Inserts a book with token 1 and returns its id; any property other
     * than the display name and the description is refused before anything
     * is written.
     */
    method CreateAddressBook(principalUri: string, url: string, properties: Assoc<string, string>) returns (r: Result<nat>)
      requires Valid() && properties.Valid()
      modifies this
      ensures Valid()
      ensures r.Err? <==> exists p :: p in properties.keys && p != DISPLAY_NAME && p != DESCRIPTION
      ensures r.Err? ==> r.error == BadRequest && db == old(db)
      ensures r.Ok? ==>
        && r.value == old(db).lastBookId + 1
        && db == old(db).(
             books := old(db).books[r.value := Book(url, properties.Get(DISPLAY_NAME), properties.Get(DESCRIPTION), principalUri, 1)],
             lastBookId := r.value)
    {
      var displayName, description, unknown := SupportedProperties(properties);
      if unknown {
        return Err(BadRequest);
      }
      var id := db.lastBookId + 1;
      var b := Book(url, displayName, description, principalUri, 1);
      LedgerAfterCreate(db.books, db.changes, db.lastBookId, b);
      db := db.(books := db.books[id := b], lastBookId := id);
      r := Ok(id);
    }

    /**
     * The update callback `updateAddressBook` registers, run on the mutations
     * handed to it: sets the given columns (a null value clears the column)
     * and logs a modification with the empty URI.
     */
    method UpdateAddressBook(bookId: nat, mutations: Assoc<string, Option<string>>)
      requires Valid() && mutations.Valid()
      requires DISPLAY_NAME in mutations.vals || DESCRIPTION in mutations.vals
      modifies this
      ensures Valid()
      ensures var renamed := Renamed(old(db).books, bookId, mutations.Get(DISPLAY_NAME), mutations.Get(DESCRIPTION));
        var logged := Logged(old(db).books, bookId, "", MODIFIED, old(db).lastChangeId + 1);
        db == old(db).(
          books := Bumped(renamed, bookId),
          changes := old(db).changes + logged,
          lastChangeId := old(db).lastChangeId + |logged|)
    {
      var displayName, description := ColumnUpdates(mutations);
      db := db.(books := Renamed(db.books, bookId, displayName, description));
      AddChange(bookId, "", MODIFIED);
    }

    /** Deletes the book and its cards, and the change rows whose own row id equals the book id. */
    method DeleteAddressBook(bookId: nat)
      requires Valid()
      modifies this
      ensures Valid()
      ensures db == old(db).(
        cards := CardsOutside(old(db).cards, bookId),
        books := old(db).books - {bookId},
        changes := ChangesWithoutRow(old(db).changes, bookId))
    {
      LedgerAfterDelete(db.books, db.changes, db.lastBookId, bookId);
      db := db.(cards := CardsOutside(db.cards, bookId));
      db := db.(books := db.books - {bookId});
      db := db.(changes := ChangesWithoutRow(db.changes, bookId));
    }

    /** Stores the card, logs an addition, and returns the quoted hash of the data. */
    method CreateCard(bookId: nat, uri: string, data: string, now: int) returns (etag: string)
      requires Valid()
      modifies this
      ensures Valid()
      ensures etag == Quoted(md5(data))
      ensures var logged := Logged(old(db).books, bookId, uri, ADDED, old(db).lastChangeId + 1);
        db == old(db).(
          cards := old(db).cards + [Card(old(db).lastCardId + 1, bookId, uri, data, now)],
          lastCardId := old(db).lastCardId + 1,
          books := Bumped(old(db).books, bookId),
          changes := old(db).changes + logged,
          lastChangeId := old(db).lastChangeId + |logged|)
    {
      db := db.(cards := db.cards + [Card(db.lastCardId + 1, bookId, uri, data, now)], lastCardId := db.lastCardId + 1);
      AddChange(bookId, uri, ADDED);
      etag := Quoted(md5(data));
    }

    /** Rewrites the matching cards, logs a modification, and returns the quoted hash of the data. */
    method UpdateCard(bookId: nat, uri: string, data: string, now: int) returns (etag: string)
      requires Valid()
      modifies this
      ensures Valid()
      ensures etag == Quoted(md5(data))
      ensures var logged := Logged(old(db).books, bookId, uri, MODIFIED, old(db).lastChangeId + 1);
        db == old(db).(
          cards := CardsUpdated(old(db).cards, bookId, uri, data, now),
          books := Bumped(old(db).books, bookId),
          changes := old(db).changes + logged,
          lastChangeId := old(db).lastChangeId + |logged|)
    {
      db := db.(cards := CardsUpdated(db.cards, bookId, uri, data, now));
      AddChange(bookId, uri, MODIFIED);
      etag := Quoted(md5(data));
    }

    /** Removes the matching cards, logs a deletion, and reports whether exactly one row went. */
    method DeleteCard(bookId: nat, uri: string) returns (deleted: bool)
      requires Valid()
      modifies this
      ensures Valid()
      ensures deleted <==> MatchCount(old(db).cards, bookId, uri) == 1
      ensures var logged := Logged(old(db).books, bookId, uri, DELETED, old(db).lastChangeId + 1);
        db == old(db).(
          cards := CardsWithout(old(db).cards, bookId, uri),
          books := Bumped(old(db).books, bookId),
          changes := old(db).changes + logged,
          lastChangeId := old(db).lastChangeId + |logged|)
    {
      var remaining := CardsWithout(db.cards, bookId, uri);
      var rowCount := |db.cards| - |remaining|;
      db := db.(cards := remaining);
      AddChange(bookId, uri, DELETED);
      deleted := rowCount == 1;
    }

    /** `getCards`: the book's cards in table order. */
    function GetCards(bookId: nat): (r: seq<Card>)
      reads this
      ensures forall c :: c in r <==> c in db.cards && c.bookId == bookId
    {
      CardsOf(db.cards, bookId)
    }

    /** `getAddressBooksForUser`: the principal's books. */
    function GetAddressBooksForUser(principalUri: string): (r: map<nat, Book>)
      reads this
      ensures forall id :: id in r <==> id in db.books && db.books[id].principalUri == principalUri
    {
      BooksOf(db.books, principalUri)
    }

    /** The changes since the client's token; absent when the book does not exist. */
    method GetChangesForAddressBook(bookId: nat, syncToken: string, limit: Option<int>) returns (r: Option<ChangeSet>)
      ensures r == ChangesSince(db.books, db.cards, db.changes, bookId, syncToken, limit)
    {
      var current := CurrentToken(db.books, bookId);
      if current.None? {
        return None;
      }
      if Truthy(syncToken) {
        var rows := ReadRows(db.changes, bookId, syncToken, current.value, limit);
        var collapsed := CollapseRows(rows);
        var added, modified, deleted := SplitByOperation(collapsed.Pairs());
        r := Some(ChangeSet(current.value, added, modified, deleted));
      } else {
        r := Some(ChangeSet(current.value, CardUris(db.cards, bookId), [], []));
      }
    }
  }
}
