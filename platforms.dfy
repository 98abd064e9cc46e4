/**
 * The platform catalog: a `platforms` table whose primary key is an id the
 * caller supplies, each mapped to a display name.
 */
module PlatformCatalog {
  import opened Wrappers
  import opened Query

  /** A row of the catalog. */
  datatype Entry = Entry(id: int, name: string)

  function EntryId(e: Entry): int
  {
    e.id
  }

  predicate IdLessEq(a: Entry, b: Entry)
  {
    a.id <= b.id
  }

  /** Sorted by id with no id twice: the ids strictly ascend. */
  lemma AscendingIds(s: seq<Entry>)
    requires SortedBy(s, IdLessEq) && UniqueBy(s, EntryId)
    ensures forall i, j :: 0 <= i < j < |s| ==> s[i].id < s[j].id
  {
    forall i, j | 0 <= i < j < |s|
      ensures s[i].id < s[j].id
    {
      assert IdLessEq(s[i], s[j]) && EntryId(s[i]) != EntryId(s[j]);
    }
  }

  class Platforms {
    /** The `platforms` table, in storage order. */
    var entries: seq<Entry>

    /** `id` is the table's primary key. */
    ghost predicate Valid()
      reads this
    {
      UniqueBy(entries, EntryId)
    }

    /** Opens a catalog file that holds `stored`. */
    constructor (stored: seq<Entry>)
      requires UniqueBy(stored, EntryId)
      ensures Valid() && entries == stored
    {
      entries := stored;
    }

    /** Inserts `(uid, name)`; an id already present violates the primary key,
        and an id outside the signed 64-bit range cannot be bound; either
        way the catalog is left as it was. */
    method Add(uid: int, name: string) returns (ok: bool)
      requires Valid()
      modifies this
      ensures Valid()
      ensures ok <==> Bindable(uid) && forall e :: e in old(entries) ==> e.id != uid
      ensures ok ==> entries == old(entries) + [Entry(uid, name)]
      ensures !ok ==> entries == old(entries)
      ensures ok ==> GetPlatformName(uid) == Some(name)
    {
      if !Bindable(uid) {
        return false;
      }
      var present := Where(entries, (e: Entry) => e.id == uid);
      if present != [] {
        assert present[0] in multiset(present);
        return false;
      }
      forall e | e in entries
        ensures e.id != uid
      {
        assert multiset(entries)[e] > 0;
      }
      entries := entries + [Entry(uid, name)];
      ok := true;
    }

    /** Deletes every entry with this name, and no other. */
    method Remove(name: string)
      requires Valid()
      modifies this
      ensures Valid()
      ensures forall e :: multiset(entries)[e] == if e.name == name then 0 else multiset(old(entries))[e]
    {
      entries := Where(entries, (e: Entry) => e.name != name);
      SubMultisetKeepsUnique(old(entries), entries, EntryId);
    }

    /** Empties the catalog before a refresh. */
    method RemoveAll()
      modifies this
      ensures Valid()
      ensures entries == [] && GetPlatforms() == []
    {
      entries := [];
    }

    /** Every entry, by ascending id. */
    function GetPlatforms(): (r: seq<Entry>)
      reads this
      requires Valid()
      ensures forall i, j :: 0 <= i < j < |r| ==> r[i].id < r[j].id
      ensures multiset(r) == multiset(entries)
    {
      assert TotalPreorder(IdLessEq);
      var sorted := OrderBy(entries, IdLessEq);
      SubMultisetKeepsUnique(entries, sorted, EntryId);
      AscendingIds(sorted);
      sorted
    }

    /** The name stored for `uid`, or none. */
    function GetPlatformName(uid: int): (r: Option<string>)
      reads this
      ensures r.None? <==> forall e :: e in entries ==> e.id != uid
      ensures r.Some? ==> Entry(uid, r.value) in entries
    {
      var found := Where(entries, (e: Entry) => e.id == uid);
      assert forall e :: e in entries && e.id == uid ==> e in found by {
        forall e | e in entries && e.id == uid
          ensures e in found
        {
          assert multiset(entries)[e] > 0;
        }
      }
      assert found != [] ==> found[0] in multiset(found);
      match First(found)
      case None => None
      case Some(e) => Some(e.name)
    }

    /** An id stored under `name`, or none; names need not be unique. */
    function GetPlatformId(name: string): (r: Option<int>)
      reads this
      ensures r.None? <==> forall e :: e in entries ==> e.name != name
      ensures r.Some? ==> Entry(r.value, name) in entries
    {
      var found := Where(entries, (e: Entry) => e.name == name);
      assert forall e :: e in entries && e.name == name ==> e in found by {
        forall e | e in entries && e.name == name
          ensures e in found
        {
          assert multiset(entries)[e] > 0;
        }
      }
      assert found != [] ==> found[0] in multiset(found);
      match First(found)
      case None => None
      case Some(e) => Some(e.id)
    }
  }
}
