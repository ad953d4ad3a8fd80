/** The in-memory map with per-entry deadlines. Time is a parameter of every call that reads the clock. */
module ExpiredMap {
  datatype Data<V> = Data(val: V, expiredAt: int)

  /** Relative seconds, or an absolute deadline when the number lies in the future. */
  function Deadline(aliveSecond: int, now: int): int
  {
    if aliveSecond <= now then now + aliveSecond else aliveSecond
  }

  /** The entries a reader can still get at a given time. */
  ghost function Live<V>(m: map<string, Data<V>>, now: int): map<string, V>
  {
    map k | k in m && now < m[k].expiredAt :: m[k].val
  }

  class Cache<V> {
    var m: map<string, Data<V>>

    constructor ()
      ensures m == map[]
    {
      m := map[];
    }

    /** A relative lifetime keeps the value readable for exactly that many seconds, an absolute one until then. */
    method Set(key: string, value: V, aliveSecond: int, now: int)
      modifies this
      ensures aliveSecond <= 0 ==> m == old(m)
      ensures aliveSecond > 0 ==> forall later :: now <= later ==>
                && (key in Live(m, later) <==> later < if aliveSecond <= now then now + aliveSecond else aliveSecond)
                && (key in Live(m, later) ==> Live(m, later)[key] == value)
      ensures forall k, later :: k != key ==>
                (k in Live(m, later) <==> k in Live(old(m), later)) &&
                (k in Live(m, later) ==> Live(m, later)[k] == Live(old(m), later)[k])
    {
      if aliveSecond <= 0 {
        return;
      }
      var expiredAt := aliveSecond;
      if aliveSecond <= now {
        expiredAt := now + aliveSecond;
      }
      m := m[key := Data(value, expiredAt)];
    }

    /** Answers from the live entries; dropping an expired one changes no answer now or later. */
    method Get(key: string, now: int) returns (found: bool, value: Lookup<V>)
      modifies this
      ensures found <==> key in Live(old(m), now)
      ensures found ==> value == Hit(Live(old(m), now)[key])
      ensures !found ==> value == Miss
      ensures forall later :: now <= later ==> Live(m, later) == Live(old(m), later)
    {
      if key !in m {
        return false, Miss;
      }
      var val := m[key];
      if val.expiredAt <= now {
        Delete(key);
        return false, Miss;
      }
      return true, Hit(val.val);
    }

    method Delete(key: string)
      modifies this
      ensures m == old(m) - {key}
      ensures forall later :: Live(m, later) == Live(old(m), later) - {key}
    {
      m := m - {key};
    }

    /** At the very second of expiry TTL still answers 0 although Get already misses. */
    method TTL(key: string, now: int) returns (ttl: int)
      modifies this
      ensures ttl == if key in old(m) && now <= old(m)[key].expiredAt then old(m)[key].expiredAt - now else -1
      ensures ttl > 0 <==> key in Live(old(m), now)
      ensures forall later :: now <= later ==> Live(m, later) == Live(old(m), later)
    {
      if key !in m {
        return -1;
      }
      ttl := m[key].expiredAt - now;
      if ttl < 0 {
        Delete(key);
        return -1;
      }
    }
  }

  datatype Lookup<V> = Miss | Hit(val: V)
}
