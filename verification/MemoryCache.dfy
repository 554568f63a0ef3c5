/** The TTL + LRU memory cache: a map, a recency list and an expiration heap that
    hold the same items, and a byte counter. Each method body runs under the
    cache's mutex, so it is one atomic step; the clock is an argument. */
module MemoryCaches {
  import opened Heaps
  import opened Sequences
  import opened Wrappers
  import opened PriorityQueues
  import opened RecencyLists
  import opened CacheSpec

  class MemoryCache {
    var data: map<string, CacheItem>
    var ll: RecencyList  // front is the least recently used
    var pq: PriorityQueue
    const maxBytes: int
    var usedBytes: int

    static ghost function EntryOf(item: CacheItem): Entry
      reads item
    {
      Entry(item.Key, item.Value, item.Expiration)
    }

    ghost function Contents(): map<string, Entry>
      requires MapAndHeapAgree()
      reads this, pq, pq.Members()
    {
      map k | k in data :: EntryOf(data[k])
    }

    /** The map and the heap hold the same items. */
    ghost predicate MapAndHeapAgree()
      reads this, pq
    {
      && (forall x :: x in pq.Members() ==> x.Key in data && data[x.Key] == x)
      && (forall k :: k in data ==> data[k] in pq.Members() && data[k].Key == k)
    }

    /** The map and the list hold the same keys, and each item points at its own node. */
    ghost predicate MapAndListAgree()
      requires MapAndHeapAgree()
      reads this, ll, pq, pq.items, pq.Members()
    {
      && (forall e :: e in ll.Members() ==> e.Value in data && data[e.Value].ListEle == e)
      && (forall k :: k in data ==> data[k].ListEle in ll.Members() && data[k].ListEle.Value == k)
    }

    /** The three indexes hold the same items, every back-pointer is right and the heap is ordered. */
    ghost predicate Consistent()
      reads this, ll, pq, pq.items, pq.Members()
    {
      && pq.Valid()
      && ll.Valid()
      && MapAndHeapAgree()
      && MapAndListAgree()
      && Listable(ll.nodes, Contents())
    }

    /** What the cache holds, least recently used first. */
    ghost function Entries(): seq<Entry>
      requires Consistent()
      reads this, ll, pq, pq.items, pq.Members()
    {
      Listing(ll.nodes, Contents())
    }

    /** Consistent, and the counter is never below the bytes that are really held. */
    ghost predicate Valid()
      reads this, ll, pq, pq.items, pq.Members()
    {
      Consistent() && Live(Entries()) <= usedBytes
    }

    ghost function State(): State
      requires Consistent()
      reads this, ll, pq, pq.items, pq.Members()
    {
      CacheSpec.State(Entries(), usedBytes, maxBytes)
    }

    /** A map hit is a lookup hit, with the item's value and deadline. */
    lemma Hit(key: string)
      requires Consistent()
      ensures key !in data ==> Lookup(Entries(), key).None?
      ensures key in data ==> Lookup(Entries(), key) == Some(EntryOf(data[key])) && EntryOf(data[key]) in Entries()
      ensures Unique(Entries())
    {
      ListingUnique(ll.nodes, Contents());
      if key in data {
        ListingHit(ll.nodes, Contents(), data[key].ListEle);
      } else {
        ListingMiss(ll.nodes, Contents(), key);
      }
    }

    constructor (limit: int)
      ensures Valid() && fresh(pq) && fresh(pq.Members()) && fresh(ll)
      ensures State() == CacheSpec.State([], 0, limit)
    {
      pq := new PriorityQueue();
      ll := new RecencyList();
      data := map[];
      maxBytes, usedBytes := limit, 0;
    }

    method MoveToBack(item: CacheItem)
      requires Consistent() && item in pq.Members()
      modifies ll
      ensures Consistent()
      ensures Entries() == Put(old(Entries()), EntryOf(item))
    {
      ghost var nodes, contents := ll.nodes, Contents();
      assert data[item.Key] == item;
      Rotate(item.ListEle);
      MoveListing(nodes, contents, item.ListEle, EntryOf(item));
      assert contents == contents[item.Key := EntryOf(item)];
    }

    /** The list half of touching or overwriting a live key. */
    method Rotate(ele: ListElement)
      requires pq.Valid() && ll.Valid() && MapAndHeapAgree() && MapAndListAgree() && ele in ll.Members()
      modifies ll
      ensures pq.Valid() && ll.Valid() && MapAndHeapAgree() && MapAndListAgree()
      ensures ll.nodes == Drop(old(ll.nodes), ele) + [ele] && Contents() == old(Contents())
    {
      ll.MoveToBack(ele);
    }

    /** Takes an item out of the list, the byte counter, the heap and the map. */
    method Unlink(item: CacheItem)
      requires pq.Valid() && ll.Valid() && item in pq.Members() && item.ListEle in ll.Members()
      modifies this`data, this`usedBytes, ll, pq, pq.Members()`Index
      ensures data == old(data) - {item.Key}
      ensures usedBytes == old(usedBytes) - Size(item.Key, item.Value)
      ensures pq.Valid() && pq.Members() == old(pq.Members()) - {item} && |pq.items| == old(|pq.items|) - 1
      ensures ll.Valid() && ll.Members() == old(ll.Members()) - {item.ListEle}
      ensures ll.nodes == Drop(old(ll.nodes), item.ListEle)
    {
      ll.Remove(item.ListEle);
      usedBytes := usedBytes - Size(item.Key, item.Value);
      pq.OwnSlot(item);
      var _ := pq.Remove(item.Index);
      data := data - {item.Key};
    }

    /** What is left of map and heap still agrees. */
    method Withdraw(item: CacheItem)
      requires pq.Valid() && ll.Valid() && MapAndHeapAgree() && item in pq.Members() && item.ListEle in ll.Members()
      modifies this`data, this`usedBytes, ll, pq, pq.Members()`Index
      ensures data == old(data) - {item.Key} && usedBytes == old(usedBytes) - Size(item.Key, item.Value)
      ensures pq.Valid() && pq.Members() == old(pq.Members()) - {item} && |pq.items| == old(|pq.items|) - 1
      ensures MapAndHeapAgree() && Contents() == old(Contents()) - {item.Key}
      ensures ll.Valid() && ll.Members() == old(ll.Members()) - {item.ListEle}
      ensures ll.nodes == Drop(old(ll.nodes), item.ListEle)
    {
      Unlink(item);
    }

    /** What is left of the three indexes still agrees. */
    method Detach(item: CacheItem)
      requires pq.Valid() && ll.Valid() && MapAndHeapAgree() && MapAndListAgree() && item in pq.Members()
      modifies this`data, this`usedBytes, ll, pq, pq.Members()`Index
      ensures usedBytes == old(usedBytes) - Size(item.Key, item.Value)
      ensures pq.Valid() && pq.Members() == old(pq.Members()) - {item} && |pq.items| == old(|pq.items|) - 1
      ensures ll.Valid()
      ensures MapAndHeapAgree()
      ensures MapAndListAgree()
      ensures ll.nodes == Drop(old(ll.nodes), item.ListEle)
      ensures Contents() == old(Contents()) - {item.Key}
    {
      Withdraw(item);
    }

    /** The three indexes without the item list its entry no more. */
    method Excise(item: CacheItem, ghost nodes: seq<ListElement>, ghost contents: map<string, Entry>)
      requires Consistent() && item in pq.Members() && nodes == ll.nodes && contents == Contents()
      modifies this`data, this`usedBytes, ll, pq, pq.Members()`Index
      ensures Consistent() && pq.Members() == old(pq.Members()) - {item} && |pq.items| == old(|pq.items|) - 1
      ensures usedBytes == old(usedBytes) - Size(item.Key, item.Value)
      ensures Listable(nodes, contents) && Entries() == Without(Listing(nodes, contents), item.Key)
    {
      assert data[item.Key] == item;
      DropListing(nodes, contents, item.ListEle);
      Detach(item);
    }

    method deleteItem(item: CacheItem)
      requires Consistent() && item in pq.Members()
      modifies this`data, this`usedBytes, ll, pq, pq.Members()`Index
      ensures Consistent() && pq.Members() == old(pq.Members()) - {item}
      ensures State() == Delete(old(State()), EntryOf(item))
      ensures |pq.items| == old(|pq.items|) - 1
    {
      Excise(item, ll.nodes, Contents());
    }

    method Get(key: string, now: int) returns (value: Option<string>)
      requires Valid()
      modifies this`data, this`usedBytes, ll, pq, pq.Members()`Index
      ensures Valid()
      ensures (State(), value) == GetStep(old(State()), key, now)
    {
      Hit(key);
      value := None;
      if key in data {
        var item := data[key];
        LiveWithout(Entries(), EntryOf(item));
        if item.Expiration < now {
          deleteItem(item);
          return;
        }
        LiveConcat(Without(Entries(), key), [EntryOf(item)]);
        MoveToBack(item);
        value := Some(item.Value);
      }
    }

    /** The item under a list node. */
    lemma NodeItem(e: ListElement)
      requires Consistent() && e in ll.Members()
      ensures e.Value in data && data[e.Value] in pq.Members() && data[e.Value].Key == e.Value
    {
    }

    method DeleteFront()
      requires Consistent() && ll.nodes != []
      modifies this`data, this`usedBytes, ll, pq, pq.Members()`Index
      ensures Consistent() && pq.Members() <= old(pq.Members()) && |pq.items| == old(|pq.items|) - 1
      ensures old(Entries()) != [] && State() == DropOldest(old(State()))
    {
      ListingUnique(ll.nodes, Contents());
      DeletingTheOldest(State());
      NodeItem(ll.nodes[0]);
      deleteItem(data[ll.nodes[0].Value]);
    }

    /** Returns false where the original would spin: the list is empty and the counter still too high. */
    method RemoveOldest() returns (returned: bool)
      requires Consistent()
      modifies this`data, this`usedBytes, ll, pq, pq.Members()`Index
      ensures Consistent() && pq.Members() <= old(pq.Members())
      ensures State() == Trim(old(State()))
      ensures returned <==> !Over(State())
    {
      ghost var was := State();
      while maxBytes != 0 && usedBytes > maxBytes
        invariant Consistent() && pq.Members() <= old(pq.Members())
        invariant Trim(State()) == Trim(was)
        decreases |pq.items|
      {
        if ll.nodes == [] {
          return false;
        }
        DeleteFront();
      }
      returned := true;
    }

    lemma AllExpireLater(now: int)
      requires Consistent() && (pq.items == [] || pq.items[0].Expiration > now)
      ensures forall e :: e in Entries() ==> e.deadline > now
    {
      forall e | e in Entries()
        ensures e.deadline > now
      {
        var i :| 0 <= i < |ll.nodes| && Entries()[i] == e;
        ListingAt(ll.nodes, Contents(), i);
        ElementsAre(ll.nodes);
        NodeItem(ll.nodes[i]);
        pq.FirstExpiresFirst(data[ll.nodes[i].Value]);
      }
    }

    /** One round of eviction: the item in slot 0 has expired. */
    method EvictFirst(ghost now: int)
      requires Consistent() && pq.items != [] && pq.items[0].Expiration <= now
      modifies this`data, this`usedBytes, ll, pq, pq.Members()`Index
      ensures Consistent() && pq.Members() <= old(pq.Members()) && |pq.items| == old(|pq.items|) - 1
      ensures Unexpired(Entries(), now) == Unexpired(old(Entries()), now)
      ensures usedBytes - Live(Entries()) == old(usedBytes - Live(Entries()))
    {
      var item := pq.items[0];
      Hit(item.Key);
      LiveWithout(Entries(), EntryOf(item));
      UnexpiredWithout(Entries(), EntryOf(item), now);
      deleteItem(item);
    }

    /** evictExpiredItems, at the instant it reads the clock. */
    method evictExpiredItems(now: int)
      requires Valid()
      modifies this`data, this`usedBytes, ll, pq, pq.Members()`Index
      ensures Valid()
      ensures State() == EvictStep(old(State()), now)
    {
      ghost var was := Entries();
      while |pq.items| > 0
        invariant Consistent() && pq.Members() <= old(pq.Members())
        invariant Unexpired(Entries(), now) == Unexpired(was, now)
        invariant usedBytes - Live(Entries()) == old(usedBytes) - Live(was)
        decreases |pq.items|
      {
        var item := pq.items[0];
        if item.Expiration > now {
          break;
        }
        EvictFirst(now);
      }
      AllExpireLater(now);
      UnexpiredAll(Entries(), now);
    }

    method Gc()
      modifies this
      ensures Valid() && fresh(pq) && fresh(ll)
      ensures State() == CacheSpec.State([], 0, maxBytes)
    {
      data := map[];
      ll := new RecencyList();
      pq := new PriorityQueue();
      usedBytes := 0;
    }

    method RetimeSlot(item: CacheItem, value: string, expiration: int)
      requires pq.Valid() && item in pq.Members()
      modifies item`Value, item`Expiration, pq, pq.Members()`Index
      ensures pq.Valid() && pq.Members() == old(pq.Members())
      ensures item.Value == value && item.Expiration == expiration
    {
      pq.OwnSlot(item);
      OverwrittenSlot(pq.Deadlines(), item.Index, expiration, |pq.items|);
      item.Value := value;
      item.Expiration := expiration;
      assert pq.Deadlines() == old(pq.Deadlines())[item.Index := expiration];
      pq.Fix(item.Index);
    }

    /** The heap half of overwriting a live key. */
    method Retime(item: CacheItem, value: string, expiration: int)
      requires pq.Valid() && MapAndHeapAgree() && MapAndListAgree() && item in pq.Members()
      modifies item`Value, item`Expiration, pq, pq.Members()`Index
      ensures pq.Valid()
      ensures MapAndHeapAgree()
      ensures MapAndListAgree()
      ensures Contents() == old(Contents())[item.Key := Entry(item.Key, value, expiration)]
    {
      RetimeSlot(item, value, expiration);
    }

    method Overwrite(item: CacheItem, value: string, expiration: int)
      requires Consistent() && item in pq.Members()
      modifies item`Value, item`Expiration, ll, pq, pq.Members()`Index
      ensures Consistent()
      ensures Entries() == Put(old(Entries()), Entry(item.Key, value, expiration))
    {
      ghost var nodes, contents := ll.nodes, Contents();
      assert data[item.Key] == item;
      Retime(item, value, expiration);
      Rotate(item.ListEle);
      MoveListing(nodes, contents, item.ListEle, Entry(item.Key, value, expiration));
    }

    method Append(key: string, value: string, expiration: int) returns (item: CacheItem)
      requires pq.Valid() && ll.Valid() && forall e :: e in ll.Members() ==> e.Value != key
      modifies this`data, ll, pq, pq.Members()`Index
      ensures fresh(item) && item.Key == key && item.Value == value && item.Expiration == expiration
      ensures item.ListEle.Value == key
      ensures data == old(data)[key := item]
      ensures pq.Valid() && pq.Members() == old(pq.Members()) + {item}
      ensures ll.Valid() && ll.Members() == old(ll.Members()) + {item.ListEle}
      ensures ll.nodes == old(ll.nodes) + [item.ListEle]
    {
      ElementsAre(pq.items);
      var ele := ll.PushBack(key);
      item := new CacheItem(key, value, expiration, ele);
      data := data[key := item];
      pq.Push(item);
    }

    /** The new item joins map and heap, which still agree. */
    method Enroll(key: string, value: string, expiration: int) returns (item: CacheItem)
      requires pq.Valid() && ll.Valid() && MapAndHeapAgree() && key !in data
      requires forall e :: e in ll.Members() ==> e.Value != key
      modifies this`data, ll, pq, pq.Members()`Index
      ensures fresh(item) && item.ListEle.Value == key && data == old(data)[key := item]
      ensures pq.Valid() && MapAndHeapAgree()
      ensures ll.Valid() && ll.Members() == old(ll.Members()) + {item.ListEle}
      ensures ll.nodes == old(ll.nodes) + [item.ListEle]
      ensures Contents() == old(Contents())[key := Entry(key, value, expiration)]
    {
      item := Append(key, value, expiration);
    }

    /** Adds a new item to the list, the map and the heap. */
    method Adopt(key: string, value: string, expiration: int) returns (item: CacheItem)
      requires pq.Valid() && ll.Valid() && MapAndHeapAgree() && MapAndListAgree() && key !in data
      modifies this`data, ll, pq, pq.Members()`Index
      ensures pq.Valid()
      ensures ll.Valid()
      ensures MapAndHeapAgree()
      ensures MapAndListAgree()
      ensures item.ListEle.Value == key
      ensures ll.nodes == old(ll.nodes) + [item.ListEle]
      ensures Contents() == old(Contents())[key := Entry(key, value, expiration)]
    {
      item := Enroll(key, value, expiration);
    }

    method Insert(key: string, value: string, expiration: int)
      requires Consistent() && key !in data
      modifies this`data, ll, pq, pq.Members()`Index
      ensures Consistent()
      ensures Entries() == old(Entries()) + [Entry(key, value, expiration)]
    {
      ghost var nodes, contents := ll.nodes, Contents();
      var item := Adopt(key, value, expiration);
      PushListing(nodes, contents, item.ListEle, Entry(key, value, expiration));
    }

    /** The last half of Set: overwrite the live item or insert a new one. */
    method Store(key: string, value: string, expiration: int)
      requires Consistent()
      modifies this`data, ll, pq, pq.Members()
      ensures Consistent()
      ensures Entries() == Put(old(Entries()), Entry(key, value, expiration))
    {
      Hit(key);
      if key in data {
        Overwrite(data[key], value, expiration);
      } else {
        WithoutMiss(Entries(), key);
        Insert(key, value, expiration);
      }
    }

    method Charge(n: nat)
      requires Consistent()
      modifies this`usedBytes
      ensures usedBytes == old(usedBytes) + n
      ensures Consistent() && Entries() == old(Entries())
    {
      ghost var contents := Contents();
      usedBytes := usedBytes + n;
      assert Contents() == contents;
    }

    /** The middle of Set: count the new bytes and make room for them. */
    method MakeRoom(n: nat, ghost room: State) returns (returned: bool)
      requires Valid() && room == Admit(State(), n)
      modifies this`data, this`usedBytes, ll, pq, pq.Members()`Index
      ensures Consistent() && pq.Members() <= old(pq.Members())
      ensures State() == room
      ensures returned <==> !Over(room)
      ensures Live(room.entries) + n <= room.used
    {
      ghost var charged := State().(used := usedBytes + n);
      assert room == Trim(charged);
      assert Live(room.entries) + n <= room.used by {
        ListingUnique(ll.nodes, Contents());
        TrimKeepsGap(charged);
      }
      Charge(n);
      assert State() == charged;
      returned := true;
      if maxBytes != 0 && usedBytes > maxBytes {
        returned := RemoveOldest();
      }
    }

    /** The new entry fits the counter once its bytes were charged. */
    lemma ChargedRoomSuffices(e: Entry)
      requires Consistent() && Live(Entries()) + Size(e.key, e.value) <= usedBytes
      ensures Live(Put(Entries(), e)) <= usedBytes
    {
      ListingUnique(ll.nodes, Contents());
      LivePut(Entries(), e);
    }

    /** Store, where the room has been made. */
    method StoreWithin(e: Entry, ghost after: seq<Entry>)
      requires Consistent() && after == Put(Entries(), e) && Live(after) <= usedBytes
      modifies this`data, ll, pq, pq.Members()
      ensures Valid() && Entries() == after
    {
      Store(e.key, e.value, e.deadline);
    }

    /** Set, once the value fits the limit. */
    method Keep(e: Entry, ghost room: State) returns (outcome: SetOutcome)
      requires Valid() && room == Admit(State(), Size(e.key, e.value))
      modifies this`data, this`usedBytes, ll, pq, pq.Members()
      ensures Valid()
      ensures outcome == if Over(room) then Hangs else Stored
      ensures State() == if Over(room) then room else room.(entries := Put(room.entries, e))
    {
      var returned := MakeRoom(Size(e.key, e.value), room);
      if !returned {
        return Hangs;
      }
      ChargedRoomSuffices(e);
      StoreWithin(e, Put(room.entries, e));
      outcome := Stored;
    }

    method Set(key: string, encoded: Option<string>, exp: int, now: int) returns (outcome: SetOutcome)
      requires Valid()
      modifies this`data, this`usedBytes, ll, pq, pq.Members()
      ensures Valid()
      ensures (State(), outcome) == SetStep(old(State()), key, encoded, Deadline(now, exp))
    {
      if encoded.None? {
        return EncodeFailed;
      }
      var v := encoded.value;
      if maxBytes != 0 && maxBytes < |key| + |v| {
        return TooLarge;
      }
      outcome := Keep(Entry(key, v, Deadline(now, exp)), Admit(State(), Size(key, v)));
    }
  }
}
