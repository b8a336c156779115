/** The table that maps a UDP source address to the stream carrying its flow. */
module UdpFlows {

  type Key = string

  /** The table without `key`, unless `key` has meanwhile been given to another stream. */
  function Forget<S(==)>(m: map<Key, S>, key: Key, stream: S): map<Key, S> {
    if key in m && m[key] == stream then m - {key} else m
  }

  class Stream {
    var closed: bool

    constructor ()
      ensures !closed
    {
      closed := false;
    }

    method Close()
      modifies this
      ensures closed
    {
      closed := true;
    }
  }

  class UdpFlows {
    var m: map<Key, Stream>

    constructor ()
      ensures m == map[]
    {
      m := map[];
    }

    method Get(key: Key) returns (s: Stream?)
      ensures s == null <==> key !in m
      ensures key in m ==> s == m[key]
    {
      s := if key in m then m[key] else null;
    }

    method Put(key: Key, s: Stream)
      modifies this
      ensures m == old(m)[key := s]
    {
      m := m[key := s];
    }

    /** Forgets the flow only while it is still `stream`'s, and closes `stream` in any case. */
    method Del(key: Key, stream: Stream)
      modifies this, stream
      ensures m == Forget(old(m), key, stream)
      ensures stream.closed
    {
      if key in m && m[key] == stream {
        m := m - {key};
      }
      stream.Close();
    }

    method CloseAll()
      modifies this, m.Values
      ensures m == map[]
      ensures forall s :: s in old(m).Values ==> s.closed
    {
      ghost var all := m;
      while m != map[]
        invariant forall k :: k in m ==> k in all && m[k] == all[k]
        invariant forall k :: k in all && k !in m ==> all[k].closed
        decreases m.Keys
      {
        var k :| k in m;
        m[k].Close();
        m := m - {k};
      }
    }
  }
}
