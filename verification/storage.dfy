/** The persistence contract of internal/storage/storage.go: `Load` reads the
    whole collection back, `Save` replaces it. The JSON file behind the real
    implementation is reduced to the four states `Load` distinguishes, and
    the I/O faults the file system can raise are two flags of the store. */
module Storage {
  import opened Wrappers
  import opened Domain
  import opened Errors

  /** What the backing store holds. */
  datatype Backing =
    | Absent                          // no backing file yet
    | EmptyFile                       // a file of zero bytes
    | Records(contacts: seq<Contact>) // a well-formed list, in stored order
    | Malformed                       // bytes that do not decode to a list of contacts

  /** What `Load` returns for a given backing store. */
  function LoadResult(backing: Backing, readFails: bool): Result<seq<Contact>, Error> {
    if backing.Absent? then Ok([])
    else if readFails then Err(ReadFailed)
    else if backing.EmptyFile? then Ok([])
    else if backing.Records? then Ok(backing.contacts)
    else Err(DecodeFailed)
  }

  class Store {
    /** The persisted collection. */
    var backing: Backing
    /** The environment: reading an existing store fails. */
    var readFails: bool
    /** The environment: writing the store fails. */
    var writeFails: bool
    /** How many times `Save` has been called. */
    ghost var saves: nat

    constructor (backing: Backing, readFails: bool, writeFails: bool)
      ensures this.backing == backing && this.readFails == readFails && this.writeFails == writeFails
      ensures saves == 0
    {
      this.backing := backing;
      this.readFails := readFails;
      this.writeFails := writeFails;
      saves := 0;
    }

    /** Returns the persisted contacts in stored order. A missing or empty
        store reads as the empty collection; reading or decoding may fail. */
    method Load() returns (r: Result<seq<Contact>, Error>)
      ensures r == LoadResult(backing, readFails)
      ensures backing.Absent? ==> r == Ok([])
      ensures backing.EmptyFile? && !readFails ==> r == Ok([])
      ensures backing.Records? && !readFails ==> r == Ok(backing.contacts)
      ensures backing.Malformed? && !readFails ==> r == Err(DecodeFailed)
      ensures !backing.Absent? && readFails ==> r == Err(ReadFailed)
    {
      r := LoadResult(backing, readFails);
    }

    /** One call of `Save(cs)` between the old and the new state: on success
        the store holds exactly `cs`, whatever it held before (replacement,
        never an append); on a write fault it reports the error and keeps
        what it had. */
    twostate predicate SavedOnce(new cs: seq<Contact>, new err: Option<Error>)
      reads this
    {
      && saves == old(saves) + 1
      && readFails == old(readFails) && writeFails == old(writeFails)
      && if writeFails then err == Some(WriteFailed) && backing == old(backing)
         else err == None && backing == Records(cs)
    }

    /** Overwrites the store with the full collection `cs`. */
    method Save(cs: seq<Contact>) returns (err: Option<Error>)
      modifies this`backing, this`saves
      ensures SavedOnce(cs, err)
    {
      saves := saves + 1;
      if writeFails {
        return Some(WriteFailed);
      }
      backing := Records(cs);
      err := None;
    }
  }

  /** Saving then loading gives back the saved collection, the empty one
      included; a second save replaces the first rather than adding to it. */
  method SaveThenLoad(store: Store, first: seq<Contact>, second: seq<Contact>)
    returns (loaded: Result<seq<Contact>, Error>)
    requires !store.readFails && !store.writeFails
    modifies store
    ensures loaded == Ok(second)
    ensures store.backing == Records(second)
  {
    var err := store.Save(first);
    assert err == None;
    loaded := store.Load();
    assert loaded == Ok(first);
    err := store.Save(second);
    loaded := store.Load();
  }
}
