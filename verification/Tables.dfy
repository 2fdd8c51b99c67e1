/** The shared records and tables: `Tuple` (tuple.h), `MapCacheHelper<int>` and `SetHelper<string>`. */
module Tables {
  import opened Words
  import opened Text
  import opened Names

  const IPPROTO_ICMP: u8 := 1
  const IPPROTO_TCP: u8 := 6
  const IPPROTO_UDP: u8 := 17

  /** A captured packet; `pkt` holds the bytes readable from the packet pointer on. */
  class Tuple {
    var flow: Flow
    var proto: u8
    var index: int
    var pkt: seq<u8>
    var flag: u16
    var seqNo: u64
    var size: u64
    var ipSize: u64

    constructor ()
      ensures flow == Flow(0, 0, 0, 0) && proto == 0 && index == 0 && pkt == []
      ensures flag == 0 && seqNo == 0 && size == 0 && ipSize == 0
    {
      flow, proto, index, pkt, flag, seqNo, size, ipSize := Flow(0, 0, 0, 0), 0, 0, [], 0, 0, 0, 0;
    }
  }

  /** The number the next packet of a 4-tuple gets. */
  function NextIndex(table: map<string, int>, key: string): int {
    if key in table then table[key] + 1 else 1
  }

  class MapCacheHelper {
    var ipPacketCache: map<string, int>

    constructor ()
      ensures ipPacketCache == map[]
    {
      ipPacketCache := map[];
    }

    /** An insertion that never overwrites. */
    method Save(key: string, value: int) returns (inserted: bool)
      modifies this
      ensures inserted <==> key !in old(ipPacketCache)
      ensures ipPacketCache == if inserted then old(ipPacketCache)[key := value] else old(ipPacketCache)
    {
      inserted := key !in ipPacketCache;
      if inserted {
        ipPacketCache := ipPacketCache[key := value];
      }
    }

    method Get(key: string) returns (result: Option<int>)
      ensures result == if key in ipPacketCache then Some(ipPacketCache[key]) else None
    {
      if key !in ipPacketCache {
        return None;
      }
      result := Some(ipPacketCache[key]);
    }

    method Erase(key: string) returns (erased: nat)
      modifies this
      ensures erased == if key in old(ipPacketCache) then 1 else 0
      ensures ipPacketCache == old(ipPacketCache) - {key}
    {
      erased := if key in ipPacketCache then 1 else 0;
      ipPacketCache := ipPacketCache - {key};
    }

    /** Get, erase and save again with no other thread in between: a present key is counted up and nothing else
        moves. */
    method GetAndIncreaseSequence(key: string, tuple: Tuple) returns (success: bool)
      requires key in ipPacketCache ==> 0 <= ipPacketCache[key] < INT_MAX
      modifies this, tuple`index
      ensures success <==> key in old(ipPacketCache)
      ensures success ==>
                && tuple.index == NextIndex(old(ipPacketCache), key)
                && ipPacketCache == old(ipPacketCache)[key := tuple.index]
      ensures !success ==> tuple.index == old(tuple.index) && ipPacketCache == old(ipPacketCache)
    {
      var res := Get(key);
      if res.None? {
        return false;
      }
      var _ := Erase(key);
      tuple.index := res.value + 1;
      success := Save(key, tuple.index);
    }
  }

  class SetHelper {
    var s: set<string>

    constructor ()
      ensures s == {}
    {
      s := {};
    }

    method SaveConcurrence(t: string) returns (inserted: bool)
      modifies this
      ensures inserted <==> t !in old(s)
      ensures s == old(s) + {t}
    {
      inserted := t !in s;
      s := s + {t};
    }

    method Find(t: string) returns (found: bool)
      ensures found <==> t in s
    {
      found := t in s;
    }

    method Erase(t: string) returns (done: bool)
      modifies this
      ensures done && s == old(s) - {t}
    {
      s := s - {t};
      done := true;
    }
  }
}
