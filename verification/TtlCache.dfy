/** The SQL-backed cache with a time to live: one table, keyed by its primary key. */
module TtlCache {
  import opened Wrappers

  datatype Row = Row(value: string, expiry: int)

  type Table = map<string, Row>

  datatype InsertResult = Inserted | PrimaryKeyConflict

  function Expiry(now: int, ttl: int): int {
    now + ttl * 1000
  }

  function CleanedUp(table: Table, now: int): Table {
    map key | key in table && table[key].expiry >= now :: table[key]
  }

  class SqlTtlCache {
    var cacheEntries: Table

    constructor ()
      ensures cacheEntries == map[]
    {
      cacheEntries := map[];
    }

    method Insert(key: string, value: string, ttl: int, now: int) returns (r: InsertResult)
      modifies this
      ensures r == PrimaryKeyConflict <==> key in old(cacheEntries)
      ensures cacheEntries == if key in old(cacheEntries) then old(cacheEntries)
                              else old(cacheEntries)[key := Row(value, now + 1000 * ttl)]
    {
      var expiry := now + ttl * 1000;
      r := InsertRow(key, Row(value, expiry));
    }

    /** The database's part of an insert. */
    method InsertRow(key: string, row: Row) returns (r: InsertResult)
      modifies this
      ensures r == PrimaryKeyConflict <==> key in old(cacheEntries)
      ensures cacheEntries == if key in old(cacheEntries) then old(cacheEntries) else old(cacheEntries)[key := row]
    {
      if key in cacheEntries {
        return PrimaryKeyConflict;
      }
      cacheEntries := cacheEntries[key := row];
      return Inserted;
    }

    /** An expired row is not returned, and is deleted on the way. */
    method Get(key: string, now: int) returns (r: Option<string>)
      modifies this
      ensures r.Some? <==> key in old(cacheEntries) && now < old(cacheEntries)[key].expiry
      ensures r.Some? ==> r.value == old(cacheEntries)[key].value && cacheEntries == old(cacheEntries)
      ensures r.None? ==> cacheEntries == old(cacheEntries) - {key}
    {
      if key !in cacheEntries {
        assert cacheEntries == cacheEntries - {key};
        return None;
      }
      var entry := cacheEntries[key];
      if now >= entry.expiry {
        Delete(key);
        return None;
      }
      return Some(entry.value);
    }

    method Delete(key: string)
      modifies this
      ensures cacheEntries == old(cacheEntries) - {key}
    {
      cacheEntries := cacheEntries - {key};
    }

    method CleanUpExpiredEntries(now: int)
      modifies this
      ensures cacheEntries == CleanedUp(old(cacheEntries), now)
      ensures forall key :: key in cacheEntries <==> key in old(cacheEntries) && !(old(cacheEntries)[key].expiry < now)
      ensures forall key :: key in cacheEntries ==> cacheEntries[key] == old(cacheEntries)[key]
    {
      cacheEntries := map key | key in cacheEntries && !(cacheEntries[key].expiry < now) :: cacheEntries[key];
    }
  }
}
