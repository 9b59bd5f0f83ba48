/** The Directory service of internal/service/directory.go: an ordered,
    in-memory collection of contacts, loaded once from a store and written
    back in full after every successful change. Every string argument is
    trimmed first; names are compared with EqualFold, searches match a
    lower-cased substring, and the operations that look a name up act on
    the first match of a scan in collection order. */
module Service {
  import opened Wrappers
  import opened Text
  import opened Domain
  import opened Errors
  import opened Storage

  // ---------------------------------------------------------------------
  // Specification of the collection operations

  /** The name test of AddContact, DeleteContact and EditContact. */
  predicate NameIs(c: Contact, name: string) {
    EqualFold(c.name, name)
  }

  /** The query test of SearchContact and SearchContacts: the lower-cased
      name contains the lower-cased query. */
  predicate NameContains(c: Contact, query: string) {
    Contains(Lower(c.name), Lower(query))
  }

  /** Some stored name equals `name` ignoring case. */
  predicate HasName(cs: seq<Contact>, name: string) {
    exists i :: 0 <= i < |cs| && NameIs(cs[i], name)
  }

  /** No two stored names are equal ignoring case. */
  predicate NamesUnique(cs: seq<Contact>) {
    forall i, j :: 0 <= i < j < |cs| ==> !EqualFold(cs[i].name, cs[j].name)
  }

  /** The index a scan in order stops at: the first contact whose name
      equals `name` ignoring case, or `|cs|` when there is none. */
  function FirstMatch(cs: seq<Contact>, name: string): (i: nat)
    ensures i <= |cs|
    ensures i < |cs| ==> NameIs(cs[i], name)
    ensures forall j :: 0 <= j < i ==> !NameIs(cs[j], name)
  {
    if cs == [] then 0
    else if NameIs(cs[0], name) then 0
    else 1 + FirstMatch(cs[1..], name)
  }

  /** A scan finds a match exactly when some name matches. */
  lemma FirstMatchFound(cs: seq<Contact>, name: string)
    ensures FirstMatch(cs, name) < |cs| <==> HasName(cs, name)
  {
  }

  /** The scan stops at `i` when `cs[i]` matches and nothing before it does. */
  lemma FirstMatchAt(cs: seq<Contact>, name: string, i: nat)
    requires i <= |cs| && forall j :: 0 <= j < i ==> !NameIs(cs[j], name)
    requires i < |cs| ==> NameIs(cs[i], name)
    ensures FirstMatch(cs, name) == i
  {
  }

  /** `cs` without its element at index `i`; the others keep their order. */
  function RemoveAt(cs: seq<Contact>, i: nat): (r: seq<Contact>)
    requires i < |cs|
    ensures |r| == |cs| - 1
    ensures forall k :: 0 <= k < i ==> r[k] == cs[k]
    ensures forall k :: i <= k < |r| ==> r[k] == cs[k + 1]
    ensures multiset(r) + multiset{cs[i]} == multiset(cs)
  {
    assert cs == cs[..i] + [cs[i]] + cs[i + 1..];
    cs[..i] + cs[i + 1..]
  }

  /** The contacts matching `query`, in collection order. */
  function Matching(cs: seq<Contact>, query: string): (r: seq<Contact>)
    ensures |r| <= |cs|
  {
    if cs == [] then []
    else (if NameContains(cs[0], query) then [cs[0]] else []) + Matching(cs[1..], query)
  }

  /** The filter keeps exactly the contacts whose name contains the query. */
  lemma {:induction false} MatchingMembers(cs: seq<Contact>, query: string)
    ensures forall c :: c in Matching(cs, query) <==> c in cs && NameContains(c, query)
  {
    if cs != [] {
      MatchingMembers(cs[1..], query);
      assert cs == [cs[0]] + cs[1..];
    }
  }

  /** Filtering keeps the order: matches of a prefix come before the
      matches of what follows it. */
  lemma {:induction false} MatchingAppend(a: seq<Contact>, b: seq<Contact>, query: string)
    ensures Matching(a + b, query) == Matching(a, query) + Matching(b, query)
  {
    if a == [] {
      assert a + b == b;
    } else {
      assert (a + b)[1..] == a[1..] + b;
      MatchingAppend(a[1..], b, query);
    }
  }

  /** Matching at a split point of the collection. */
  lemma MatchingSplit(cs: seq<Contact>, i: nat, query: string)
    requires i <= |cs|
    ensures Matching(cs, query) == Matching(cs[..i], query) + Matching(cs[i..], query)
  {
    assert cs[..i] + cs[i..] == cs;
    MatchingAppend(cs[..i], cs[i..], query);
  }

  /** One step of a scan: the matches of the first `i + 1` contacts. */
  lemma MatchingSnoc(cs: seq<Contact>, i: nat, query: string)
    requires i < |cs|
    ensures Matching(cs[..i + 1], query)
         == Matching(cs[..i], query) + (if NameContains(cs[i], query) then [cs[i]] else [])
  {
    assert cs[..i + 1] == cs[..i] + [cs[i]];
    assert [cs[i]][1..] == [];
    MatchingAppend(cs[..i], [cs[i]], query);
  }

  /** A scan that reaches its first match at `i` has found the head of the filter. */
  lemma MatchingHeadAt(cs: seq<Contact>, i: nat, query: string)
    requires i < |cs| && Matching(cs[..i], query) == [] && NameContains(cs[i], query)
    ensures Matching(cs, query) != [] && Matching(cs, query)[0] == cs[i]
  {
    MatchingSplit(cs, i, query);
    assert cs[i..] == [cs[i]] + cs[i + 1..];
  }

  /** The empty query (and so a query of white space only) matches every
      contact: every string contains the empty string. */
  lemma {:induction false} MatchingEmptyQuery(cs: seq<Contact>)
    ensures Matching(cs, "") == cs
  {
    if cs != [] {
      ContainsEmpty(Lower(cs[0].name));
      MatchingEmptyQuery(cs[1..]);
    }
  }

  /** A query of white space only trims to the empty query, so a search
      with it returns every contact. */
  lemma MatchingBlankQuery(cs: seq<Contact>, query: string)
    requires forall k :: 0 <= k < |query| ==> IsSpace(query[k])
    ensures Matching(cs, TrimSpace(query)) == cs
  {
    TrimSpaceOfBlank(query);
    MatchingEmptyQuery(cs);
  }

  /** Searching ignores the case of the query. */
  lemma {:induction false} MatchingIgnoresQueryCase(cs: seq<Contact>, q1: string, q2: string)
    requires Lower(q1) == Lower(q2)
    ensures Matching(cs, q1) == Matching(cs, q2)
  {
    if cs != [] {
      MatchingIgnoresQueryCase(cs[1..], q1, q2);
    }
  }

  /** The first match of a search is the first contact, in collection
      order, whose name contains the query. */
  lemma {:induction false} MatchingHeadIsFirst(cs: seq<Contact>, query: string)
    requires Matching(cs, query) != []
    ensures exists i :: 0 <= i < |cs| && cs[i] == Matching(cs, query)[0] && NameContains(cs[i], query)
              && forall j :: 0 <= j < i ==> !NameContains(cs[j], query)
  {
    if NameContains(cs[0], query) {
      assert cs[0] == Matching(cs, query)[0];
    } else {
      MatchingHeadIsFirst(cs[1..], query);
      var i :| 0 <= i < |cs[1..]| && cs[1..][i] == Matching(cs[1..], query)[0] && NameContains(cs[1..][i], query)
                 && forall j :: 0 <= j < i ==> !NameContains(cs[1..][j], query);
      assert cs[i + 1] == cs[1..][i];
      assert forall j :: 1 <= j < i + 1 ==> cs[j] == cs[1..][j - 1];
    }
  }

  /** Appending a contact whose name is not yet stored keeps names unique. */
  lemma AppendKeepsNamesUnique(cs: seq<Contact>, c: Contact)
    requires NamesUnique(cs) && !HasName(cs, c.name)
    ensures NamesUnique(cs + [c])
  {
    var r := cs + [c];
    forall i, j | 0 <= i < j < |r| ensures !EqualFold(r[i].name, r[j].name) {
      if j == |cs| {
        assert !NameIs(cs[i], c.name);
      }
    }
  }

  /** Removing an entry keeps names unique, and under unique names removing
      the first match of `name` leaves no entry matching it. */
  lemma RemoveFirstMatchKeepsNamesUnique(cs: seq<Contact>, name: string)
    requires NamesUnique(cs) && FirstMatch(cs, name) < |cs|
    ensures NamesUnique(RemoveAt(cs, FirstMatch(cs, name)))
    ensures !HasName(RemoveAt(cs, FirstMatch(cs, name)), name)
  {
    var i := FirstMatch(cs, name);
    var r := RemoveAt(cs, i);
    forall a, b | 0 <= a < b < |r| ensures !EqualFold(r[a].name, r[b].name) {
      var a', b' := if a < i then a else a + 1, if b < i then b else b + 1;
      assert r[a] == cs[a'] && r[b] == cs[b'];
    }
  }

  /** Changing phones only keeps names unique. */
  lemma SameNamesKeepNamesUnique(cs: seq<Contact>, ds: seq<Contact>)
    requires |cs| == |ds| && forall k :: 0 <= k < |cs| ==> cs[k].name == ds[k].name
    requires NamesUnique(cs)
    ensures NamesUnique(ds)
  {
  }

  /** Setting the phone of one entry changes no name and no length, and so
      keeps names unique. */
  lemma SetPhoneKeepsNames(cs: seq<Contact>, i: nat, phone: string)
    requires i < |cs|
    ensures var r := cs[i := cs[i].(phone := phone)];
      && |r| == |cs|
      && (forall k :: 0 <= k < |r| ==> r[k].name == cs[k].name)
      && (NamesUnique(cs) ==> NamesUnique(r))
  {
    var r := cs[i := cs[i].(phone := phone)];
    if NamesUnique(cs) {
      SameNamesKeepNamesUnique(cs, r);
    }
  }

  // ---------------------------------------------------------------------
  // The service

  class Directory {
    const storage: Store
    var contacts: seq<Contact>

    constructor (storage: Store, contacts: seq<Contact>)
      ensures this.storage == storage && this.contacts == contacts
    {
      this.storage := storage;
      this.contacts := contacts;
    }

    /** Whether a stored name equals the trimmed `name` ignoring case. */
    method ContactExists(name: string) returns (found: bool)
      ensures found <==> HasName(contacts, TrimSpace(name))
    {
      var n := TrimSpace(name);
      var i := 0;
      while i < |contacts|
        invariant 0 <= i <= |contacts|
        invariant forall j :: 0 <= j < i ==> !NameIs(contacts[j], n)
      {
        if NameIs(contacts[i], n) {
          return true;
        }
        i := i + 1;
      }
      return false;
    }

    /** Appends the trimmed contact unless its name is already stored
        (ignoring case), then saves the whole collection. A failed save
        does not undo the append. */
    method AddContact(name: string, phone: string) returns (err: Option<Error>)
      modifies this, storage
      ensures var n, p := TrimSpace(name), TrimSpace(phone);
        if HasName(old(contacts), n) then
          && err == Some(DuplicateName(n))
          && contacts == old(contacts) && unchanged(storage)
        else
          && contacts == old(contacts) + [NewContact(n, p)]
          && storage.SavedOnce(contacts, err)
      ensures old(NamesUnique(contacts)) ==> NamesUnique(contacts)
    {
      var n := TrimSpace(name);
      var p := TrimSpace(phone);
      var taken := ContactExists(n);
      TrimSpaceIdempotent(name);
      if taken {
        return Some(DuplicateName(n));
      }
      var contact := NewContact(n, p);
      if NamesUnique(contacts) {
        AppendKeepsNamesUnique(contacts, contact);
      }
      contacts := contacts + [contact];
      err := storage.Save(contacts);
    }

    /** Removes the first contact whose name equals the trimmed `name`
        ignoring case, then saves; reports NotFound when there is none. */
    method DeleteContact(name: string) returns (err: Option<Error>)
      modifies this, storage
      ensures var n := TrimSpace(name); var i := FirstMatch(old(contacts), n);
        if i == |old(contacts)| then
          && err == Some(NotFound(n))
          && contacts == old(contacts) && unchanged(storage)
        else
          && contacts == RemoveAt(old(contacts), i)
          && storage.SavedOnce(contacts, err)
      ensures old(NamesUnique(contacts)) ==> NamesUnique(contacts) && !HasName(contacts, TrimSpace(name))
    {
      var n := TrimSpace(name);
      var i := 0;
      while i < |contacts| && !NameIs(contacts[i], n)
        invariant 0 <= i <= |contacts|
        invariant forall j :: 0 <= j < i ==> !NameIs(contacts[j], n)
      {
        i := i + 1;
      }
      FirstMatchAt(contacts, n, i);
      if i == |contacts| {
        return Some(NotFound(n));
      }
      if NamesUnique(contacts) {
        RemoveFirstMatchKeepsNamesUnique(contacts, n);
      }
      contacts := contacts[..i] + contacts[i + 1..];
      err := storage.Save(contacts);
    }

    /** Sets the phone of the first contact whose name equals the trimmed
        `name` ignoring case to the trimmed `newPhone`, then saves; reports
        NotFound when there is none. Names never change. */
    method EditContact(name: string, newPhone: string) returns (err: Option<Error>)
      modifies this, storage
      ensures var n, p := TrimSpace(name), TrimSpace(newPhone); var i := FirstMatch(old(contacts), n);
        if i == |old(contacts)| then
          && err == Some(NotFound(n))
          && contacts == old(contacts) && unchanged(storage)
        else
          && contacts == old(contacts)[i := old(contacts)[i].(phone := p)]
          && storage.SavedOnce(contacts, err)
      ensures |contacts| == |old(contacts)|
      ensures forall k :: 0 <= k < |contacts| ==> contacts[k].name == old(contacts)[k].name
      ensures old(NamesUnique(contacts)) ==> NamesUnique(contacts)
    {
      var n := TrimSpace(name);
      var p := TrimSpace(newPhone);
      var i := 0;
      while i < |contacts| && !NameIs(contacts[i], n)
        invariant 0 <= i <= |contacts|
        invariant forall j :: 0 <= j < i ==> !NameIs(contacts[j], n)
      {
        i := i + 1;
      }
      FirstMatchAt(contacts, n, i);
      if i == |contacts| {
        return Some(NotFound(n));
      }
      SetPhoneKeepsNames(contacts, i, p);
      contacts := contacts[i := contacts[i].(phone := p)];
      err := storage.Save(contacts);
    }

    /** The first contact whose lower-cased name contains the trimmed,
        lower-cased query: the head of SearchContacts' result, or NotFound
        when that result is empty. */
    method SearchContact(name: string) returns (r: Result<Contact, Error>)
      ensures var q := TrimSpace(name);
        if Matching(contacts, q) == [] then r == Err(NotFound(q))
        else r == Ok(Matching(contacts, q)[0])
    {
      var q := TrimSpace(name);
      var i := 0;
      while i < |contacts|
        invariant 0 <= i <= |contacts|
        invariant Matching(contacts[..i], q) == []
      {
        var c := contacts[i];
        if NameContains(c, q) {
          MatchingHeadAt(contacts, i, q);
          return Ok(c);
        }
        MatchingSnoc(contacts, i, q);
        i := i + 1;
      }
      assert contacts[..i] == contacts;
      return Err(NotFound(q));
    }

    /** All contacts whose lower-cased name contains the trimmed,
        lower-cased query, in collection order; empty, never an error,
        when none match. */
    method SearchContacts(name: string) returns (matches: seq<Contact>)
      ensures matches == Matching(contacts, TrimSpace(name))
    {
      var q := TrimSpace(name);
      matches := [];
      var i := 0;
      while i < |contacts|
        invariant 0 <= i <= |contacts|
        invariant matches == Matching(contacts[..i], q)
      {
        var c := contacts[i];
        MatchingSnoc(contacts, i, q);
        if NameContains(c, q) {
          matches := matches + [c];
        }
        i := i + 1;
      }
      assert contacts[..i] == contacts;
    }

    /** The current collection, in order and unfiltered. */
    method ListContacts() returns (r: seq<Contact>)
      ensures r == contacts
    {
      r := contacts;
    }
  }

  /** Builds a directory whose collection is what the store loads; a load
      error is wrapped and no directory is produced. */
  method NewDirectory(storage: Store) returns (r: Result<Directory, Error>)
    ensures match LoadResult(storage.backing, storage.readFails)
      case Ok(cs) => r.Ok? && fresh(r.value) && r.value.storage == storage && r.value.contacts == cs
      case Err(e) => r == Err(LoadFailed(e))
  {
    var loaded := storage.Load();
    if loaded.Err? {
      return Err(LoadFailed(loaded.error));
    }
    var d := new Directory(storage, loaded.value);
    return Ok(d);
  }

  // ---------------------------------------------------------------------
  // Client scenarios, following internal/service/directory_test.go

  /** Add, then reject a duplicate that differs only in case: the second
      call reports the variant and changes nothing. The names and phones
      are any already trimmed strings, such as "Alice" and "alice". */
  method AddThenDuplicate(d: Directory, name: string, variant: string, phone: string, otherPhone: string)
    returns (first: Option<Error>, second: Option<Error>)
    requires d.contacts == [] && !d.storage.writeFails
    requires TrimSpace(name) == name && TrimSpace(variant) == variant && EqualFold(name, variant)
    requires TrimSpace(phone) == phone
    modifies d, d.storage
    ensures first == None && second == Some(DuplicateName(variant))
    ensures d.contacts == [Contact(name, phone)] && d.storage.backing == Records(d.contacts)
    ensures !d.storage.writeFails
  {
    first := d.AddContact(name, phone);
    assert HasName(d.contacts, variant) by {
      assert NameIs(d.contacts[0], variant);
    }
    second := d.AddContact(variant, otherPhone);
  }

  /** Edit the only contact, then delete it: the directory ends empty and
      the store holds the empty collection. */
  method EditThenDelete(d: Directory, name: string, phone: string, newPhone: string)
    returns (final: seq<Contact>)
    requires d.contacts == [Contact(name, phone)] && !d.storage.writeFails
    requires TrimSpace(name) == name && TrimSpace(newPhone) == newPhone
    modifies d, d.storage
    ensures final == [] && d.storage.backing == Records([])
  {
    FirstMatchAt(d.contacts, name, 0);
    var err := d.EditContact(name, newPhone);
    assert d.contacts == [Contact(name, newPhone)];
    FirstMatchAt(d.contacts, name, 0);
    err := d.DeleteContact(name);
    final := d.ListContacts();
  }

  /** The whole lifecycle, starting from a store with no backing file. */
  method LifecycleScenario(name: string, variant: string, phone: string, otherPhone: string, newPhone: string)
    returns (final: seq<Contact>)
    requires TrimSpace(name) == name && TrimSpace(variant) == variant && EqualFold(name, variant)
    requires TrimSpace(phone) == phone && TrimSpace(newPhone) == newPhone
    ensures final == []
  {
    var store := new Store(Absent, false, false);
    var created := NewDirectory(store);
    var d := created.value;
    var first, second := AddThenDuplicate(d, name, variant, phone, otherPhone);
    final := EditThenDelete(d, name, phone, newPhone);
  }
}
