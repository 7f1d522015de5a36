/**
 * The browser-side favorites list used without an account: a list of book
 * hashes with the time each was added, loaded once from local storage and
 * written back after every change.
 *
 * Local storage is the `saved` field; the JSON text it holds is not modelled,
 * only the list it encodes or the fact that it does not parse.
 */
module LocalFavorites {
  import Tables

  datatype LocalFavorite = LocalFavorite(bookHash: string, addedAt: int)

  /** What local storage holds under the favorites key. */
  datatype StoredItem = NoItem | Unparseable | Parsed(list: seq<LocalFavorite>)

  function HashOf(f: LocalFavorite): string
  {
    f.bookHash
  }

  predicate HasHash(favorites: seq<LocalFavorite>, hash: string)
  {
    exists i :: 0 <= i < |favorites| && favorites[i].bookHash == hash
  }

  /** The filter `remove` applies: every entry with another hash. */
  function OtherHash(hash: string): LocalFavorite -> bool
  {
    (f: LocalFavorite) => f.bookHash != hash
  }

  /** The list read at start-up: the stored list, or empty when nothing parses or there is no browser. */
  function Initial(inBrowser: bool, stored: StoredItem): (r: seq<LocalFavorite>)
    ensures stored.Unparseable? || stored.NoItem? || !inBrowser ==> r == []
  {
    if inBrowser && stored.Parsed? then stored.list else []
  }

  class LocalFavoritesStore {
    var favorites: seq<LocalFavorite>
    var saved: StoredItem
    /** Whether a browser window, and so local storage, is present. */
    const inBrowser: bool

    /** The store as created at start-up from whatever local storage holds. */
    constructor (inBrowser: bool, stored: StoredItem)
      ensures this.inBrowser == inBrowser && saved == stored
      ensures favorites == Initial(inBrowser, stored)
    {
      this.inBrowser := inBrowser;
      saved := stored;
      favorites := if inBrowser && stored.Parsed? then stored.list else [];
    }

    /** Writes the list back to local storage when there is a browser. */
    method Persist()
      modifies this
      ensures favorites == old(favorites)
      ensures saved == if inBrowser then Parsed(favorites) else old(saved)
    {
      if inBrowser {
        saved := Parsed(favorites);
      }
    }

    /** add: a hash already present changes nothing; otherwise one entry is appended and the list saved. */
    method Add(bookHash: string, now: int)
      modifies this
      ensures HasHash(old(favorites), bookHash) ==> favorites == old(favorites) && saved == old(saved)
      ensures !HasHash(old(favorites), bookHash) ==>
                favorites == old(favorites) + [LocalFavorite(bookHash, now)]
                && saved == (if inBrowser then Parsed(favorites) else old(saved))
      ensures HasHash(favorites, bookHash)
      ensures Tables.DistinctKeys(old(favorites), HashOf) ==> Tables.DistinctKeys(favorites, HashOf)
    {
      if !HasHash(favorites, bookHash) {
        favorites := favorites + [LocalFavorite(bookHash, now)];
        Persist();
      }
      assert favorites[|favorites| - 1].bookHash == bookHash || HasHash(old(favorites), bookHash);
    }

    /** remove: drops every entry with the hash, keeps the others in order, and saves the list. */
    method Remove(bookHash: string)
      modifies this
      ensures favorites == Tables.Filter(old(favorites), OtherHash(bookHash))
      ensures saved == if inBrowser then Parsed(favorites) else old(saved)
      ensures !HasHash(favorites, bookHash)
      ensures forall f :: f in favorites <==> f in old(favorites) && f.bookHash != bookHash
      ensures Tables.DistinctKeys(old(favorites), HashOf) ==> Tables.DistinctKeys(favorites, HashOf)
    {
      if Tables.DistinctKeys(favorites, HashOf) {
        Tables.FilterKeepsDistinct(favorites, HashOf, OtherHash(bookHash));
      }
      favorites := Tables.Filter(favorites, OtherHash(bookHash));
      forall i | 0 <= i < |favorites|
        ensures favorites[i].bookHash != bookHash
      {
        assert OtherHash(bookHash)(favorites[i]);
      }
      Persist();
    }

    /** isFavorited: whether some entry has the hash. */
    function IsFavorited(bookHash: string): (r: bool)
      reads this
      ensures r <==> exists f :: f in favorites && f.bookHash == bookHash
    {
      HasHash(favorites, bookHash)
    }

    /** getCount: the number of entries. */
    function GetCount(): (n: nat)
      reads this
      ensures n == |favorites|
    {
      |favorites|
    }
  }

  /** Adding a hash and then removing it leaves the list as it was, when the hash was absent. */
  lemma AddThenRemove(favorites: seq<LocalFavorite>, bookHash: string, now: int)
    requires !HasHash(favorites, bookHash)
    ensures Tables.Filter(favorites + [LocalFavorite(bookHash, now)], OtherHash(bookHash)) == favorites
  {
    Tables.FilterAppend(favorites, LocalFavorite(bookHash, now), OtherHash(bookHash));
    forall k | 0 <= k < |favorites|
      ensures OtherHash(bookHash)(favorites[k])
    {
    }
    Tables.FilterAll(favorites, OtherHash(bookHash));
  }
}
