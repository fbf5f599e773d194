/** The cache of UDP addresses by IPX address, a client of the hash table. */
module AddrCache {
  import opened Ipx
  import opened Options
  import opened UtHash
  import opened UtHashAgreement
  import opened HashTables

  const TTL := 30
  const STORAGE := 128  // sizeof(SOCKADDR_STORAGE)

  datatype HostKey = HostKey(netnum: nat, nodenum: nat, socket: nat)
  datatype Cached = Cached(addr: Bytes, time: int)

  /** What a lookup answers when the cache holds `m`. */
  function Answer(m: map<HostKey, Cached>, key: HostKey, now: int): Option<Bytes> {
    if key in m && now < m[key].time + TTL then Some(m[key].addr) else None
  }

  class HostEntry {
    var addr: Bytes
    var addrlen: nat
    var time: int

    constructor ()
      ensures |addr| == STORAGE && addrlen == 0 && time == 0
    {
      addr, addrlen, time := seq(STORAGE, _ => 0), 0, 0;
    }

    ghost predicate Valid()
      reads this
    {
      |addr| == STORAGE && addrlen <= STORAGE
    }

    ghost function View(): Cached
      requires Valid()
      reads this
    {
      Cached(addr[..addrlen], time)
    }
  }

  class Cache {
    const hostTable: HashTable<HostKey, HostEntry>
    /** The entries malloc()ed so far. */
    ghost var entries: set<HostEntry>

    ghost predicate Valid()
      reads this, entries, hostTable, hostTable.buckets
    {
      && hostTable.Valid()
      && (forall e :: e in entries ==> e.Valid())
      && (forall k :: k in hostTable.Map() ==> hostTable.Map()[k] in entries)
      && forall k, l :: k in hostTable.Map() && l in hostTable.Map() && k != l ==> hostTable.Map()[k] != hostTable.Map()[l]
    }

    ghost function View(): map<HostKey, Cached>
      requires Valid()
      reads this, entries, hostTable, hostTable.buckets
    {
      map k | k in hostTable.Map() :: hostTable.Map()[k].View()
    }

    constructor (hash: HostKey -> nat)
      ensures Valid() && fresh(hostTable) && fresh(hostTable.buckets) && View() == map[]
    {
      hostTable := new HashTable(hash);
      entries := {};
    }

    /** addr_cache_get */
    method Get(key: HostKey, now: int) returns (r: Option<Bytes>)
      requires Valid()
      ensures r == Answer(View(), key, now)
    {
      var host := hostTable.Find(key);
      match host {
        case None => r := None;
        case Some(h) =>
          assert View()[key] == h.elem.View();
          if now < h.elem.time + TTL {
            r := Some(h.elem.addr[..h.elem.addrlen]);
          } else {
            r := None;
          }
      }
    }

    /** A change to one key's entry shows under that key only. */
    twostate lemma ViewsChanged(key: HostKey, new e: HostEntry)
      requires old(Valid()) && Valid() && e.Valid() && hostTable.Map() == old(hostTable.Map())[key := e]
      requires forall k :: k in old(hostTable.Map()) && k != key ==> unchanged(old(hostTable.Map())[k])
      ensures View() == old(View())[key := e.View()]
    {
      hide hostTable.Valid, hostTable.Map, hostTable.View;
      forall k | k in hostTable.Map() && k != key ensures hostTable.Map()[k].View() == old(hostTable.Map()[k].View()) {}
    }

    /** A zeroed entry, linked into the table. */
    method NewEntry(key: HostKey) returns (e: HostEntry)
      requires Valid() && key !in hostTable.Map()
      modifies this, hostTable, hostTable.buckets
      ensures Valid() && fresh(e) && entries == old(entries) + {e}
      ensures hostTable.Map() == old(hostTable.Map())[key := e]
      ensures View() == old(View())[key := e.View()]
      ensures hostTable.buckets == old(hostTable.buckets) || fresh(hostTable.buckets)
    {
      hide hostTable.Valid, hostTable.Map, hostTable.View, UtHash.Add;
      e := new HostEntry();
      hostTable.Add(key, e);
      entries := entries + {e};
      ViewsChanged(key, e);
    }

    /** The entry for a key, linked into the table first if there is none. */
    method FindOrCreate(key: HostKey, memory: bool) returns (e: HostEntry?)
      requires Valid()
      modifies this, hostTable, hostTable.buckets
      ensures Valid()
      ensures e == null <==> key !in old(View()) && !memory
      ensures e == null ==> View() == old(View())
      ensures e != null ==> key in hostTable.Map() && hostTable.Map()[key] == e && e in entries && (e in old(entries) || fresh(e))
      ensures e != null ==> View() == old(View())[key := View()[key]]
      ensures hostTable.buckets == old(hostTable.buckets) || fresh(hostTable.buckets)
    {
      hide hostTable.Valid, hostTable.Map, hostTable.View, UtHash.Find;
      var host := hostTable.Find(key);
      match host {
        case Some(h) =>
          e := h.elem;
        case None =>
          if !memory { return null; }
          e := NewEntry(key);
      }
    }

    /** Overwrites the entry found for a key: no other key's entry is the same object. */
    method Store(e: HostEntry, addr: Bytes, key: HostKey, now: int)
      requires Valid() && |addr| <= STORAGE && key in hostTable.Map() && hostTable.Map()[key] == e
      modifies e
      ensures Valid() && View() == old(View())[key := Cached(addr, now)]
    {
      hide hostTable.Valid, hostTable.Map, hostTable.View;
      e.addr := addr + e.addr[|addr|..];
      e.addrlen := |addr|;
      e.time := now;
      assert e.View() == Cached(addr, now);
      ViewsChanged(key, e);
    }

    /** addr_cache_set; `memory` says whether malloc() of a new entry, if one is needed, succeeds. */
    method Set(addr: Bytes, key: HostKey, now: int, memory: bool)
      requires Valid() && |addr| <= STORAGE
      modifies this, entries, hostTable, hostTable.buckets
      ensures Valid()
      ensures View() == if key in old(View()) || memory then old(View())[key := Cached(addr, now)] else old(View())
    {
      hide Valid, View, hostTable.Valid, hostTable.Map, hostTable.View;
      var e := FindOrCreate(key, memory);
      if e != null {
        Store(e, addr, key, now);
      }
    }

    /** host_table_delete of the first entry. */
    method DropHead()
      requires Valid() && hostTable.live
      modifies hostTable, hostTable.buckets
      ensures Valid() && hostTable.buckets == old(hostTable.buckets)
      ensures |hostTable.Map()| < |old(hostTable.Map())|
      ensures !hostTable.live ==> View() == map[]
    {
      hide hostTable.Valid, hostTable.View, Contents;
      hostTable.DeleteHead();
    }

    /** addr_cache_cleanup: unlinks every entry, from the head of the app-order list. */
    method Cleanup()
      requires Valid()
      modifies hostTable, hostTable.buckets
      ensures Valid() && View() == map[]
    {
      hide hostTable.Valid, hostTable.View, Contents;
      while hostTable.live
        invariant Valid() && hostTable.buckets == old(hostTable.buckets)
        invariant !hostTable.live ==> View() == map[]
        decreases |hostTable.Map()|
      {
        DropHead();
      }
    }
  }

  // ----- what the cache promises over a whole run -----

  /** One addr_cache_set, and whether malloc() would have succeeded. */
  datatype Update = Update(key: HostKey, addr: Bytes, time: int, memory: bool)

  function RunUpdates(run: seq<Update>): map<HostKey, Cached> {
    if run == [] then map[]
    else
      var m, u := RunUpdates(run[..|run| - 1]), run[|run| - 1];
      if u.key in m || u.memory then m[u.key := Cached(u.addr, u.time)] else m
  }

  /** Position i holds the last update of a key that took effect: every later one of that key
      would have too, and the first of a key needs memory. */
  ghost predicate LastSet(run: seq<Update>, key: HostKey, i: int) {
    && 0 <= i < |run| && run[i].key == key
    && (forall j :: i < j < |run| ==> run[j].key != key)
    && exists j :: 0 <= j <= i && run[j].key == key && run[j].memory
  }

  lemma {:induction false} StoredIff(run: seq<Update>, key: HostKey)
    ensures key in RunUpdates(run) <==> exists j :: 0 <= j < |run| && run[j].key == key && run[j].memory
  {
    if run != [] {
      var prefix, last := run[..|run| - 1], |run| - 1;
      StoredIff(prefix, key);
      assert run == prefix + [run[last]];
    }
  }

  lemma {:induction false} LastSetIsStored(run: seq<Update>, key: HostKey, i: int)
    requires LastSet(run, key, i)
    ensures key in RunUpdates(run) && RunUpdates(run)[key] == Cached(run[i].addr, run[i].time)
  {
    var prefix, last := run[..|run| - 1], |run| - 1;
    var j :| 0 <= j <= i && run[j].key == key && run[j].memory;
    if i == last {
      StoredIff(prefix, key);
      if j < last { assert prefix[j].key == key && prefix[j].memory; }
    } else {
      assert prefix[j].memory && run[last].key != key;
      LastSetIsStored(prefix, key, i);
    }
  }

  lemma {:induction false} StoredHasLastSet(run: seq<Update>, key: HostKey) returns (i: int)
    requires key in RunUpdates(run)
    ensures LastSet(run, key, i)
  {
    var prefix, last := run[..|run| - 1], |run| - 1;
    StoredIff(run, key);
    if run[last].key == key {
      i := last;
    } else {
      i := StoredHasLastSet(prefix, key);
      var j :| 0 <= j <= i && prefix[j].key == key && prefix[j].memory;
      assert run[j].memory;
    }
  }

  /** addr_cache_get answers with the address of the last addr_cache_set of that key, exactly
      while that is less than 30 s old; a key whose allocations all failed has no answer. */
  lemma GetReturnsLastSet(run: seq<Update>, key: HostKey, now: int, a: Bytes)
    ensures Answer(RunUpdates(run), key, now) == Some(a)
       <==> exists i :: LastSet(run, key, i) && run[i].addr == a && now < run[i].time + TTL
  {
    if Answer(RunUpdates(run), key, now) == Some(a) {
      var i := StoredHasLastSet(run, key);
      LastSetIsStored(run, key, i);
    }
    forall i | LastSet(run, key, i) && run[i].addr == a && now < run[i].time + TTL
      ensures Answer(RunUpdates(run), key, now) == Some(a)
    {
      LastSetIsStored(run, key, i);
    }
  }
}
