// The part of Redis the proxy relies on: strings and sorted sets under keys that
// expire, one atomic step per command, against a clock that never goes back.
module Redis {
  import opened Text

  datatype Entry = Entry(value: string, expires: int)

  type Keyspace = map<string, Entry>

  function Get(db: Keyspace, now: int, key: string): Option<string>
  {
    if key in db && now < db[key].expires then Some(db[key].value) else None
  }

  function Put(db: Keyspace, now: int, key: string, value: string, ttl: nat): Keyspace
  {
    db[key := Entry(value, now + ttl)]
  }

  function PutIfAbsent(db: Keyspace, now: int, key: string, value: string, ttl: nat): Keyspace
  {
    if Get(db, now, key).Some? then db else Put(db, now, key, value, ttl)
  }

  function Remove(db: Keyspace, key: string): Keyspace
  {
    map k | k in db && k != key :: db[k]
  }

  /** The compare-and-delete script. */
  function RemoveIfEquals(db: Keyspace, now: int, key: string, value: string): Keyspace
  {
    if Get(db, now, key) == Some(value) then Remove(db, key) else db
  }

  function Prolong(db: Keyspace, now: int, key: string, ttl: nat): Keyspace
  {
    if Get(db, now, key).Some? then db[key := db[key].(expires := now + ttl)] else db
  }

  // ----- sorted sets -------------------------------------------------------

  /** A member whose score is the time in it; the salt tells apart members of one instant. */
  datatype Member = Member(at: int, salt: string)

  /** A set key has no expiry until one is set. */
  datatype ZSet = ZSet(members: set<Member>, expires: Option<int>)

  type ZSets = map<string, ZSet>

  function Members(zs: ZSets, now: int, key: string): set<Member>
  {
    if key in zs && (zs[key].expires.None? || now < zs[key].expires.value) then zs[key].members else {}
  }

  /** Removes the scores up to and including the cutoff; an empty set is no key at all. */
  function Evict(zs: ZSets, now: int, key: string, cutoff: int): ZSets
  {
    var left := set m | m in Members(zs, now, key) && m.at > cutoff;
    if left == {} then RemoveSet(zs, key) else zs[key := zs[key].(members := left)]
  }

  /** Only the evicted key loses members, and it loses exactly the old ones. */
  lemma EvictFilters(zs: ZSets, now: int, key: string, cutoff: int, other: string)
    ensures Members(Evict(zs, now, key, cutoff), now, other) ==
            if other == key then set m | m in Members(zs, now, key) && m.at > cutoff else Members(zs, now, other)
  {
  }

  function RemoveSet(zs: ZSets, key: string): ZSets
  {
    map k | k in zs && k != key :: zs[k]
  }

  lemma RemoveSetRemoves(zs: ZSets, now: int, key: string, other: string)
    ensures Members(RemoveSet(zs, key), now, other) == if other == key then {} else Members(zs, now, other)
  {
  }

  function AddMember(zs: ZSets, now: int, key: string, m: Member): ZSets
  {
    if Members(zs, now, key) == {} then zs[key := ZSet({m}, None)]
    else zs[key := zs[key].(members := zs[key].members + {m})]
  }

  function ProlongSet(zs: ZSets, now: int, key: string, ttl: nat): ZSets
  {
    if Members(zs, now, key) == {} then zs else zs[key := zs[key].(expires := Some(now + ttl))]
  }

  // ----- the server --------------------------------------------------------

  class Server {
    var now: int
    var db: Keyspace
    var zsets: ZSets

    constructor (start: int)
      ensures now == start && db == map[] && zsets == map[]
    {
      now := start;
      db, zsets := map[], map[];
    }

    method Elapse(ms: nat)
      modifies this`now
      ensures now == old(now) + ms
    {
      now := now + ms;
    }

    method Fetch(key: string) returns (value: Option<string>)
      ensures value == Get(db, now, key)
    {
      value := if key in db && now < db[key].expires then Some(db[key].value) else None;
    }

    method Set(key: string, value: string, ttl: nat)
      modifies this`db
      ensures db == Put(old(db), now, key, value, ttl)
    {
      db := db[key := Entry(value, now + ttl)];
    }

    method SetNX(key: string, value: string, ttl: nat) returns (stored: bool)
      modifies this`db
      ensures db == PutIfAbsent(old(db), now, key, value, ttl)
      ensures stored <==> Get(old(db), now, key).None?
    {
      var present := Fetch(key);
      stored := present.None?;
      if stored {
        Set(key, value, ttl);
      }
    }

    method Del(key: string)
      modifies this`db
      ensures db == Remove(old(db), key)
    {
      db := Remove(db, key);
    }

    method DelIfEquals(key: string, value: string)
      modifies this`db
      ensures db == RemoveIfEquals(old(db), now, key, value)
    {
      var present := Fetch(key);
      if present == Some(value) {
        Del(key);
      }
    }

    method Expire(key: string, ttl: nat)
      modifies this`db
      ensures db == Prolong(old(db), now, key, ttl)
    {
      var present := Fetch(key);
      if present.Some? {
        db := db[key := db[key].(expires := now + ttl)];
      }
    }

    method ZRemRangeByScore(key: string, cutoff: int)
      modifies this`zsets
      ensures zsets == Evict(old(zsets), now, key, cutoff)
      ensures Members(zsets, now, key) == set m | m in Members(old(zsets), now, key) && m.at > cutoff
      ensures forall other :: other != key ==> Members(zsets, now, other) == Members(old(zsets), now, other)
    {
      var left: set<Member> := {};
      if key in zsets && (zsets[key].expires.None? || now < zsets[key].expires.value) {
        left := set m | m in zsets[key].members && m.at > cutoff;
      }
      if left == {} {
        zsets := map k | k in zsets && k != key :: zsets[k];
      } else {
        zsets := zsets[key := zsets[key].(members := left)];
      }
    }

    method ZCard(key: string) returns (n: nat)
      ensures n == |Members(zsets, now, key)|
    {
      n := |Members(zsets, now, key)|;
    }

    method ZAdd(key: string, m: Member)
      modifies this`zsets
      ensures zsets == AddMember(old(zsets), now, key, m)
    {
      zsets := AddMember(zsets, now, key, m);
    }

    method ExpireSet(key: string, ttl: nat)
      modifies this`zsets
      ensures zsets == ProlongSet(old(zsets), now, key, ttl)
    {
      zsets := ProlongSet(zsets, now, key, ttl);
    }
  }

  // ----- keys --------------------------------------------------------------

  /** A virtual key and a payload hash: 64 hex digits of SHA-256. */
  datatype RawPair = Pair(vk: string, hash: string)

  type Pair = p: RawPair | |p.hash| == 64 witness Pair("", seq(64, _ => '0'))

  function KeyOf(prefix: string, p: Pair): string
  {
    prefix + p.vk + ":" + p.hash
  }

  /** The hash has a fixed width, so a colon inside the virtual key cannot make two
      pairs share a key. */
  lemma KeyIsInjective(prefix: string, p: Pair, q: Pair)
    requires KeyOf(prefix, p) == KeyOf(prefix, q)
    ensures p == q
  {
    var a, b := KeyOf(prefix, p), KeyOf(prefix, q);
    assert a[|prefix|..|a| - 65] == p.vk && a[|a| - 64..] == p.hash;
    assert b[|prefix|..|b| - 65] == q.vk && b[|b| - 64..] == q.hash;
  }

  lemma PrefixesKeepApart(one: string, other: string, p: Pair, q: Pair)
    requires |one| == |other| && one != other
    ensures KeyOf(one, p) != KeyOf(other, q)
  {
    assert KeyOf(one, p)[..|one|] == one && KeyOf(other, q)[..|one|] == other;
  }
}
